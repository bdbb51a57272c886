/**
 * upload_to_drive: a counted retry loop around two remote writes (create the
 * file, then make it readable by anyone). The Drive client is replaced by the
 * outcome of each attempt, given in advance; the one-second sleep between
 * attempts has no observable effect and is left out.
 */
module DriveUpload {

  import opened Wrappers

  /** The address a stored image is shown from; the file id follows it. */
  const ViewUrlPrefix: string := "https://drive.google.com/uc?export=view&id="

  /** The retry count the upload page uses (the parameter's default). */
  const DefaultRetry: int := 2

  /** What one pass through the body of the retry loop meets. */
  datatype Attempt =
    | CreateFailed(error: string)
      /** the file was created, but making it public raised: the file stays behind */
    | PermissionFailed(fileId: string, error: string)
    | Created(fileId: string)

  /** How upload_to_drive ends: it returns a URL, falls through returning None, or raises. */
  datatype UploadResult = Returned(url: string) | ReturnedNone | Raised(error: string)

  /** The result together with the number of attempts made. */
  datatype UploadRun = UploadRun(result: UploadResult, attempts: nat)

  function ViewUrl(fileId: string): string {
    ViewUrlPrefix + fileId
  }

  /** Recovers the file id from a view URL. */
  function FileIdOf(url: string): Option<string> {
    if |ViewUrlPrefix| <= |url| && url[..|ViewUrlPrefix|] == ViewUrlPrefix
    then Some(url[|ViewUrlPrefix|..])
    else None
  }

  /** A successful upload's URL is the fixed prefix followed by the file id, and nothing else. */
  lemma ViewUrlRoundTrip(fileId: string)
    ensures FileIdOf(ViewUrl(fileId)) == Some(fileId)
    ensures ViewUrl(fileId) != []
  {
    var u := ViewUrl(fileId);
    assert u[..|ViewUrlPrefix|] == ViewUrlPrefix;
    assert u[|ViewUrlPrefix|..] == fileId;
  }

  /** The loop from attempt number `attempt` on, with `retry + 1` attempts allowed in all. */
  function RunFrom(outcomes: seq<Attempt>, attempt: nat, retry: nat): UploadRun
    requires attempt <= retry < |outcomes|
    decreases retry - attempt
  {
    match outcomes[attempt]
    case Created(id) => UploadRun(Returned(ViewUrl(id)), attempt + 1)
    case _ =>
      if attempt == retry then UploadRun(Raised(outcomes[attempt].error), attempt + 1)
      else RunFrom(outcomes, attempt + 1, retry)
  }

  /** upload_to_drive(image_bytes, filename, retry), given what each attempt meets. */
  function Upload(outcomes: seq<Attempt>, retry: int): UploadRun
    requires retry < |outcomes|
  {
    if retry < 0 then UploadRun(ReturnedNone, 0) else RunFrom(outcomes, 0, retry)
  }

  method UploadToDrive(outcomes: seq<Attempt>, retry: int) returns (run: UploadRun)
    requires retry < |outcomes|
    ensures run == Upload(outcomes, retry)
  {
    var attempt := 0;
    while attempt < retry + 1
      invariant 0 <= attempt
      invariant retry >= 0 ==> attempt <= retry && RunFrom(outcomes, attempt, retry) == Upload(outcomes, retry)
    {
      match outcomes[attempt]
      case Created(id) =>
        return UploadRun(Returned(ViewUrl(id)), attempt + 1);
      case _ =>
        if attempt == retry {
          return UploadRun(Raised(outcomes[attempt].error), attempt + 1);
        }
      attempt := attempt + 1;
    }
    run := UploadRun(ReturnedNone, 0);
  }

  /** What the loop from `attempt` on does, stated without the loop. */
  lemma {:induction false} RunFromSpec(outcomes: seq<Attempt>, attempt: nat, retry: nat)
    requires attempt <= retry < |outcomes|
    ensures var r := RunFrom(outcomes, attempt, retry);
      && attempt < r.attempts <= retry + 1
      && (forall j :: attempt <= j < r.attempts - 1 ==> !outcomes[j].Created?)
      && !r.result.ReturnedNone?
      && (r.result.Returned? <==> outcomes[r.attempts - 1].Created?)
      && (r.result.Returned? ==> r.result.url == ViewUrl(outcomes[r.attempts - 1].fileId))
      && (r.result.Raised? ==> r.attempts == retry + 1 && r.result.error == outcomes[retry].error)
    decreases retry - attempt
  {
    if !outcomes[attempt].Created? && attempt < retry {
      RunFromSpec(outcomes, attempt + 1, retry);
    }
  }

  /** At most retry + 1 attempts are made, and none at all when retry is negative. */
  lemma AttemptBound(outcomes: seq<Attempt>, retry: int)
    requires retry < |outcomes|
    ensures Upload(outcomes, retry).attempts <= if retry < 0 then 0 else retry + 1
    ensures retry >= 0 ==> Upload(outcomes, retry).attempts >= 1
  {
    if retry >= 0 {
      RunFromSpec(outcomes, 0, retry);
    }
  }

  /** With a negative retry count nothing is attempted and the function returns None. */
  lemma NegativeRetryReturnsNone(outcomes: seq<Attempt>, retry: int)
    requires retry < |outcomes|
    ensures Upload(outcomes, retry).result.ReturnedNone? <==> retry < 0
  {
    if retry >= 0 {
      RunFromSpec(outcomes, 0, retry);
    }
  }

  /**
   * The upload succeeds exactly when one of the first retry + 1 attempts gets
   * through both steps, and then returns the view URL of the first such attempt.
   */
  lemma UploadReturnsFirstSuccess(outcomes: seq<Attempt>, retry: int)
    requires retry < |outcomes|
    ensures Upload(outcomes, retry).result.Returned? <==> exists k :: 0 <= k <= retry && outcomes[k].Created?
    ensures Upload(outcomes, retry).result.Returned? ==>
      var k := Upload(outcomes, retry).attempts - 1;
      && 0 <= k <= retry && outcomes[k].Created?
      && (forall j :: 0 <= j < k ==> !outcomes[j].Created?)
      && Upload(outcomes, retry).result.url == ViewUrl(outcomes[k].fileId)
  {
    if retry >= 0 {
      RunFromSpec(outcomes, 0, retry);
    }
  }

  /** When every allowed attempt fails, all of them are made and the last one's error is raised. */
  lemma UploadRaisesLastError(outcomes: seq<Attempt>, retry: int)
    requires retry < |outcomes|
    ensures Upload(outcomes, retry).result.Raised? <==>
      retry >= 0 && forall k :: 0 <= k <= retry ==> !outcomes[k].Created?
    ensures Upload(outcomes, retry).result.Raised? ==>
      Upload(outcomes, retry).attempts == retry + 1 &&
      Upload(outcomes, retry).result.error == outcomes[retry].error
  {
    if retry >= 0 {
      RunFromSpec(outcomes, 0, retry);
    }
  }

  /**
   * Two failures then a success: with the default retry count the third
   * attempt stores the file; with one retry the second failure is raised.
   */
  lemma SuccessOnThirdAttempt(e1: string, e2: string, id: string)
    ensures var outcomes := [CreateFailed(e1), PermissionFailed("orphan", e2), Created(id)];
      && Upload(outcomes, DefaultRetry) == UploadRun(Returned(ViewUrl(id)), 3)
      && Upload(outcomes, 1) == UploadRun(Raised(e2), 2)
  {
  }
}
