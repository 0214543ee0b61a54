TestResult.DisplayName,TestResult.Outcome,TestResult.Duration,TestResult.ResourceCount,RandomSeed
Sitemaps.PickSample (correctness),Passed,00:00:01.5526330,2115754,0
Sitemaps.PickSample (well-formedness),Passed,00:00:00.5136675,78616,0
