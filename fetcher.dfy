/**
 The fetcher's retry loop (app.py `download_image`). The network request,
 the HTTP status check and the file write are replaced by one outcome per
 attempt; whether the destination exists is a flag the loop keeps; the
 back-off sleeps are recorded, never waited for.
 */
module Fetcher {

  const Retries: nat := 3

  /** What one attempt's request and write did. */
  datatype Attempt =
    | Written          // the GET succeeded and the file was written
    | FailedNoFile     // the GET or its status check failed before the file was opened
    | FailedLeftFile   // the file was opened, then the transfer or the write failed

  /** The outcomes the environment has ready for the three attempts. */
  type Attempts = s: seq<Attempt> | |s| == Retries witness [FailedNoFile, FailedNoFile, FailedNoFile]

  /**
   Everything a call observably does: its result, the number of GET
   requests it sent, whether the destination exists afterwards, and the
   sleeps (in seconds) it took between attempts.
   */
  datatype FetchOutcome = FetchOutcome(ok: bool, gets: nat, fileExists: bool, sleeps: seq<nat>)

  /** The delay after failed attempt `i` (counting from 0). */
  function Backoff(i: nat): nat {
    5 * (i + 1)
  }

  /** The delays of the first `n` failed attempts. */
  function Backoffs(n: nat): (s: seq<nat>)
    ensures |s| == n && forall j :: 0 <= j < n ==> s[j] == Backoff(j)
  {
    if n == 0 then [] else Backoffs(n - 1) + [Backoff(n - 1)]
  }

  /**
   The reference behaviour from attempt `i` on, when the destination is
   present or not at its start: a present file ends the call with success and no
   request; otherwise one GET, and a failure sleeps and tries again unless
   it was the last attempt.
   */
  function FetchFrom(i: nat, present: bool, attempts: Attempts): (r: FetchOutcome)
    requires i < Retries
    ensures r.gets <= Retries - i
    ensures r.ok ==> r.fileExists
    ensures |r.sleeps| < Retries - i
    ensures forall j :: 0 <= j < |r.sleeps| ==> r.sleeps[j] == Backoff(i + j)
    ensures present ==> r == FetchOutcome(true, 0, true, [])
    ensures !present ==> 1 <= r.gets && (r.gets == |r.sleeps| + 1 || r.gets == |r.sleeps|)
    ensures !r.ok ==> r.gets == Retries - i && |r.sleeps| == Retries - i - 1
    decreases Retries - i
  {
    if present then
      FetchOutcome(true, 0, true, [])
    else if attempts[i] == Written then
      FetchOutcome(true, 1, true, [])
    else
      var left := attempts[i] == FailedLeftFile;
      if i == Retries - 1 then
        FetchOutcome(false, 1, left, [])
      else
        var rest := FetchFrom(i + 1, left, attempts);
        FetchOutcome(rest.ok, rest.gets + 1, rest.fileExists, [Backoff(i)] + rest.sleeps)
  }

  /** A whole call: the destination is present beforehand or not. */
  function Fetch(preexisting: bool, attempts: Attempts): (r: FetchOutcome)
    ensures r.gets <= Retries
    ensures r.ok ==> r.fileExists
    ensures forall j :: 0 <= j < |r.sleeps| ==> r.sleeps[j] == Backoff(j)
    ensures preexisting ==> r == FetchOutcome(true, 0, true, [])
    ensures !r.ok ==> r.gets == Retries && r.sleeps == [5, 10]
  {
    FetchFrom(0, preexisting, attempts)
  }

  /**
   The call fails exactly when the file is absent, the first two attempts
   fail without leaving a file and the third does not write it; then all
   three requests were sent, with sleeps of 5 and 10 seconds between them.
   */
  lemma FailsExactly(preexisting: bool, attempts: Attempts)
    ensures !Fetch(preexisting, attempts).ok <==>
      !preexisting && attempts[0] == FailedNoFile && attempts[1] == FailedNoFile && attempts[2] != Written
  {
    var r0 := FetchFrom(0, preexisting, attempts);
    if !preexisting && attempts[0] != Written {
      var r1 := FetchFrom(1, attempts[0] == FailedLeftFile, attempts);
      assert r0.ok == r1.ok;
      if attempts[0] == FailedNoFile && attempts[1] != Written {
        var r2 := FetchFrom(2, attempts[1] == FailedLeftFile, attempts);
        assert r1.ok == r2.ok;
      }
    }
  }

  /**
   An attempt that fails after creating the file is followed by one more
   attempt at most, which finds the file and succeeds without a request.
   */
  lemma LeftFileSucceedsNext(attempts: Attempts, i: nat)
    requires i < Retries - 1 && attempts[i] == FailedLeftFile
    ensures FetchFrom(i, false, attempts) == FetchOutcome(true, 1, true, [Backoff(i)])
  {
    assert FetchFrom(i + 1, true, attempts) == FetchOutcome(true, 0, true, []);
  }

  /** Success after failures: one sleep per failed attempt, each longer by 5 seconds. */
  lemma SucceedsAfterFailures(attempts: Attempts, i: nat)
    requires i < Retries
    requires forall j :: 0 <= j < i ==> attempts[j] == FailedNoFile
    requires attempts[i] == Written
    ensures Fetch(false, attempts) == FetchOutcome(true, i + 1, true, Backoffs(i))
  {
    if i == 0 {
    } else if i == 1 {
      assert FetchFrom(1, false, attempts) == FetchOutcome(true, 1, true, []);
    } else {
      assert FetchFrom(2, false, attempts) == FetchOutcome(true, 1, true, []);
      assert FetchFrom(1, false, attempts) == FetchOutcome(true, 2, true, [Backoff(1)]);
    }
  }

  lemma AppendAssoc(a: seq<nat>, b: seq<nat>, c: seq<nat>)
    ensures a + (b + c) == a + b + c
  {
  }

  /**
   `download_image(session, url, save_path)`: up to three attempts, each
   returning at once when the destination is already present.
   */
  method DownloadImage(preexisting: bool, attempts: Attempts)
    returns (ok: bool, gets: nat, fileExists: bool, ghost sleeps: seq<nat>)
    ensures ok == Fetch(preexisting, attempts).ok && gets == Fetch(preexisting, attempts).gets
    ensures fileExists == Fetch(preexisting, attempts).fileExists
    ensures sleeps == Fetch(preexisting, attempts).sleeps
  {
    var present := preexisting;
    gets, sleeps := 0, [];
    ghost var target := Fetch(preexisting, attempts);
    for i := 0 to Retries
      invariant i < Retries
      invariant var rest := FetchFrom(i, present, attempts);
        target == FetchOutcome(rest.ok, gets + rest.gets, rest.fileExists, sleeps + rest.sleeps)
    {
      if present {
        assert FetchFrom(i, present, attempts) == FetchOutcome(true, 0, true, []);
        ok, fileExists := true, true;
        assert sleeps + [] == sleeps;
        return;
      }
      gets := gets + 1;
      if attempts[i] == Written {
        assert FetchFrom(i, present, attempts) == FetchOutcome(true, 1, true, []);
        ok, fileExists := true, true;
        assert sleeps + [] == sleeps;
        return;
      }
      present := attempts[i] == FailedLeftFile;
      if i < Retries - 1 {
        AppendAssoc(sleeps, [Backoff(i)], FetchFrom(i + 1, present, attempts).sleeps);
        sleeps := sleeps + [Backoff(i)];
      } else {
        ok, fileExists := false, present;
        assert sleeps + [] == sleeps;
        return;
      }
    }
  }
}
