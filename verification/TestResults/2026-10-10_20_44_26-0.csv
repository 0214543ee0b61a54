TestResult.DisplayName,TestResult.Outcome,TestResult.Duration,TestResult.ResourceCount,RandomSeed
Sitemaps.PickSample (correctness),Passed,00:00:02.0381966,3167294,0
Sitemaps.PickSample (well-formedness),Passed,00:00:00.5227833,70433,0
