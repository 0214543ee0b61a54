TestResult.DisplayName,TestResult.Outcome,TestResult.Duration,TestResult.ResourceCount,RandomSeed
Sitemaps.PickSample (correctness),Failed,00:00:02.0739644,2653428,0
Sitemaps.PickSample (well-formedness),Passed,00:00:00.3629225,81025,0
