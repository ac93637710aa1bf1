TestResult.DisplayName,TestResult.Outcome,TestResult.Duration,TestResult.ResourceCount,RandomSeed
AdminPanel.DateTextNames (correctness),Passed,00:00:00.2075390,231215,3
AdminPanel.DateTextIsDay (correctness),Passed,00:00:00.1461158,78083,3
