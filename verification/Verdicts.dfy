/** What a block submission comes back with, and the verdict on the share behind it
    (`submit_block` in bridge/src/kaspaapi.rs, the block branch of `handle_submit` in
    bridge/src/share_handler.rs). */
module Verdicts {

  datatype RejectReason = BlockInvalid | IsInIBD | RouteIsFull

  /** The node's side of a block submission: a report, or a call that failed. */
  datatype NodeReply = Success | Reject(reason: RejectReason) | CallFailed(cause: Error)

  /** What `submit_block` returns to the share handler. */
  datatype BlockResult = Ok(success: bool) | Err(text: string)

  datatype Verdict =
    | ValidShare                 // counted as a share
    | LowDifficulty              // counted as invalid
    | StaleBlock                 // counted as stale
    | BadBlock                   // counted as invalid
    | Underflow                  // the subtraction of job ids traps

  predicate Contains(s: string, p: string) {
    p <= s || (s != "" && Contains(s[1..], p))
  }

  const ALREADY_SUBMITTED := "ErrDuplicateBlock" + ": block already submitted"

  const REJECTED := "Block rejected by node: "

  function Rejection(reason: RejectReason): string {
    match reason
    case BlockInvalid => REJECTED + "Reject(BlockInvalid)"
    case IsInIBD => REJECTED + "Reject(IsInIBD)"
    case RouteIsFull => REJECTED + "Reject(RouteIsFull)"
  }

  /** An error: a message, or a context put around another error. */
  datatype Error = Message(text: string) | Context(context: string, cause: Error)

  /** Printed plainly, an error shows its outermost layer only. */
  function Display(e: Error): string {
    match e
    case Message(text) => text
    case Context(context, _) => context
  }

  /** What `submit_block` makes of a failed call. */
  function FailedCall(cause: Error): Error {
    Context("Failed to submit block", cause)
  }

  predicate LooksDuplicate(text: string) {
    Contains(text, "ErrDuplicateBlock") || Contains(text, "duplicate")
  }

  /** The verdict on a share that met the network target. */
  function BlockVerdict(r: BlockResult): Verdict {
    match r
    case Ok(success) => if success then ValidShare else LowDifficulty
    case Err(text) => if Contains(text, "ErrDuplicateBlock") then StaleBlock else BadBlock
  }

  lemma {:induction false} NotContained(s: string, p: string, j: nat)
    requires j < |p| && p[j] !in s
    ensures !Contains(s, p)
  {
    if s != "" {
      NotContained(s[1..], p, j);
    }
  }

  /** A text without a 'p' looks like no duplicate. */
  lemma NoDuplicateWithoutP(text: string)
    requires 'p' !in text
    ensures !LooksDuplicate(text) && BlockVerdict(Err(text)) == BadBlock
  {
    assert "ErrDuplicateBlock"[5] == 'p' && "duplicate"[2] == 'p';
    NotContained(text, "ErrDuplicateBlock", 5);
    NotContained(text, "duplicate", 2);
  }

  /** Whatever the node said, a failed call never looks like a duplicate. */
  lemma FailedCallNeverLooksDuplicate(cause: Error)
    ensures !LooksDuplicate(Display(FailedCall(cause))) && BlockVerdict(Err(Display(FailedCall(cause)))) == BadBlock
  {
    assert 'p' !in Display(FailedCall(cause));
    NoDuplicateWithoutP(Display(FailedCall(cause)));
  }

  lemma RejectionIsBad(reason: RejectReason)
    ensures BlockVerdict(Err(Rejection(reason))) == BadBlock
  {
    assert 'p' !in REJECTED;
    assert 'p' !in "Reject(BlockInvalid)" && 'p' !in "Reject(IsInIBD)" && 'p' !in "Reject(RouteIsFull)";
    NoDuplicateWithoutP(Rejection(reason));
  }

  lemma PrefixContained(p: string, rest: string)
    ensures Contains(p + rest, p)
  {
  }

  lemma AlreadySubmittedIsStale()
    ensures BlockVerdict(Err(ALREADY_SUBMITTED)) == StaleBlock
  {
    PrefixContained("ErrDuplicateBlock", ": block already submitted");
  }
}
