/** The status vocabularies of the test runner and of the reporting backend. */
module Statuses {
  import opened Common

  const PASSED := "PASSED"
  const FAILED := "FAILED"

  /** Status strings the runner writes into a step. */
  const SUCCESS := "success"
  const STEP_FAILED := "failed"
  const STEP_PASSED := "passed"

  /** `rpStatus`: translate the runner's step status for the backend. Only the two runner
      words `success` and `failed` are translated; anything else, `undefined` included,
      is handed through untouched. */
  function RpStatus(status: Option<string>): (r: Option<string>)
    ensures r != Some(SUCCESS) && r != Some(STEP_FAILED)
    ensures status == Some(SUCCESS) ==> r == Some(PASSED)
    ensures status == Some(STEP_FAILED) ==> r == Some(FAILED)
    ensures status != Some(SUCCESS) && status != Some(STEP_FAILED) ==> r == status
  {
    if status == Some(SUCCESS) then Some(PASSED)
    else if status == Some(STEP_FAILED) then Some(FAILED)
    else status
  }

  /** Translating twice is translating once: the backend words are fixed points. */
  lemma RpStatusIdempotent(status: Option<string>)
    ensures RpStatus(RpStatus(status)) == RpStatus(status)
  {
  }

  /** The word `step.passed` writes is not translated: it reaches the backend in lower case. */
  lemma RpStatusKeepsLowerCasePassed()
    ensures RpStatus(Some(STEP_PASSED)) == Some(STEP_PASSED)
    ensures RpStatus(None) == None
  {
  }
}
