TestResult.DisplayName,TestResult.Outcome,TestResult.Duration,TestResult.ResourceCount,RandomSeed
AdminPanel.DateTextNames (correctness),Passed,00:00:00.1671014,203619,2
AdminPanel.DateTextIsDay (correctness),Passed,00:00:00.1217297,78095,2
