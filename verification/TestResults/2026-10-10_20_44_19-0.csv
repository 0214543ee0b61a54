TestResult.DisplayName,TestResult.Outcome,TestResult.Duration,TestResult.ResourceCount,RandomSeed
Sitemaps.PickSample (correctness),Passed,00:00:01.5260911,1877581,0
Sitemaps.PickSample (well-formedness),Passed,00:00:00.6429344,74860,0
