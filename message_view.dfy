/**
 * The message list of `renderMessages` (app.js:389-393): beyond 3000
 * messages only the newest 3000 are drawn, and a notice says so.
 */
module MessageView {

  const RenderLimit: nat := 3000

  /** `msgs.length > LIMIT ? msgs.slice(-LIMIT) : msgs` */
  function RenderWindow<T>(msgs: seq<T>): (r: seq<T>)
    ensures |r| == if |msgs| > RenderLimit then RenderLimit else |msgs|
    ensures msgs == msgs[..|msgs| - |r|] + r
  {
    if |msgs| > RenderLimit then msgs[|msgs| - RenderLimit..] else msgs
  }

  /** `msgs.length > LIMIT`: the notice above a shortened list. */
  predicate ShowsNotice<T>(msgs: seq<T>)
  {
    |msgs| > RenderLimit
  }

  /** The notice is shown exactly when some messages are left undrawn. */
  lemma {:induction false} NoticeWhenShortened<T>(msgs: seq<T>)
    ensures ShowsNotice(msgs) <==> RenderWindow(msgs) != msgs
  {
    if ShowsNotice(msgs) {
      assert |RenderWindow(msgs)| < |msgs|;
    }
  }

  /** Drawing the drawn list again changes nothing. */
  lemma {:induction false} RenderWindowIdempotent<T>(msgs: seq<T>)
    ensures RenderWindow(RenderWindow(msgs)) == RenderWindow(msgs)
  {
  }

  /** Once at least 3000 newer messages follow, older ones no longer affect what is drawn. */
  lemma {:induction false} RenderWindowNewest<T>(older: seq<T>, newer: seq<T>)
    requires |newer| >= RenderLimit
    ensures RenderWindow(older + newer) == RenderWindow(newer)
  {
    var all := older + newer;
    var a, b := all[|all| - RenderLimit..], newer[|newer| - RenderLimit..];
    assert a == b by {
      forall k | 0 <= k < |a| ensures a[k] == b[k] {
        assert all[|all| - RenderLimit + k] == newer[|newer| - RenderLimit + k];
      }
    }
  }
}
