TestResult.DisplayName,TestResult.Outcome,TestResult.Duration,TestResult.ResourceCount,RandomSeed
Sitemaps.PickSample (correctness),Passed,00:00:01.6306136,1690956,0
Sitemaps.PickSample (well-formedness),Passed,00:00:00.5469191,72879,0
