/**
 * `parseMessages` (parser.worker.js:8-55): the transcript is split into
 * lines; a line that matches the header pattern closes the open message
 * and opens a new one, any other line is appended to the open message (or
 * dropped while none is open), and the last open message is flushed at the
 * end.
 *
 * `Grouped` is the reference definition: every header line yields one
 * message, whose text is followed by the lines up to the next header.
 * `GroupLines` is the loop of the source, proved to compute it for any
 * line reader, and `ParseMessages` runs it with the header pattern. The
 * definitions walk the lines by position, as the loop does.
 */
module ParserWorker {
  import opened Wrappers
  import opened Text
  import opened HeaderLine
  import opened MessageDecode

  /** `text.split('\n')` */
  function Lines(text: string): seq<string>
  {
    Split(text, '\n')
  }

  /**
   * What a line reads as: the message it opens when it matches the header
   * pattern, `None` for any other line.
   */
  function Header(line: string): Option<Message>
  {
    var found := MatchHeader(line);
    if found.None? then None
    else
      MatchedDecodable(line);
      Some(OpenMessage(found.value))
  }

  /** `currentMessage.text += text`, as a new value. */
  function Appended(m: Message, text: string): Message
  {
    m.(text := m.text + text)
  }

  /*
   * The grouping below takes the line reader `header` as a parameter, so
   * that it can be stated once for any reader; the parser applies it to
   * `Header`.
   */

  /**
   * What the lines from position `i` up to the next header add to the open
   * message: `'\n' + line.trim()` each.
   */
  function Continuation(header: string -> Option<Message>, lines: seq<string>, i: nat): string
    requires i <= |lines|
    decreases |lines| - i
  {
    if i == |lines| || header(lines[i]).Some? then []
    else "\n" + Trim(lines[i]) + Continuation(header, lines, i + 1)
  }

  /** The messages of the lines from position `i` on, one per header line, in order. */
  function Grouped(header: string -> Option<Message>, lines: seq<string>, i: nat): seq<Message>
    requires i <= |lines|
    decreases |lines| - i
  {
    if i == |lines| then []
    else if header(lines[i]).Some? then
      [Appended(header(lines[i]).value, Continuation(header, lines, i + 1))] + Grouped(header, lines, i + 1)
    else Grouped(header, lines, i + 1)
  }

  /**
   * The loop state read as a promise about the whole transcript: the
   * messages already pushed, then the open message once the remaining lines
   * have extended it, then the messages of the remaining lines.
   */
  function Pending(header: string -> Option<Message>, messages: seq<Message>, current: Option<Message>, lines: seq<string>, i: nat): seq<Message>
    requires i <= |lines|
  {
    messages + (if current.Some? then [Appended(current.value, Continuation(header, lines, i))] else []) + Grouped(header, lines, i)
  }

  /** A header line closes the open message and opens its own. */
  lemma {:induction false} PendingAtHeader(header: string -> Option<Message>, messages: seq<Message>, current: Option<Message>, lines: seq<string>, i: nat)
    requires i < |lines| && header(lines[i]).Some?
    ensures current.None? ==> Pending(header, messages, current, lines, i) == Pending(header, messages, header(lines[i]), lines, i + 1)
    ensures current.Some? ==> Pending(header, messages, current, lines, i) == Pending(header, messages + [current.value], header(lines[i]), lines, i + 1)
  {
    assert Continuation(header, lines, i) == [];
    if current.Some? {
      assert current.value.text + [] == current.value.text;
    }
  }

  /** Any other line extends the open message, or is dropped while none is open. */
  lemma {:induction false} PendingAtOther(header: string -> Option<Message>, messages: seq<Message>, current: Option<Message>, lines: seq<string>, i: nat)
    requires i < |lines| && header(lines[i]).None?
    ensures current.None? ==> Pending(header, messages, current, lines, i) == Pending(header, messages, None, lines, i + 1)
    ensures current.Some? ==>
      Pending(header, messages, current, lines, i) == Pending(header, messages, Some(current.value.(text := current.value.text + "\n" + Trim(lines[i]))), lines, i + 1)
  {
    if current.Some? {
      var rest := Continuation(header, lines, i + 1);
      assert current.value.text + ("\n" + Trim(lines[i]) + rest) == (current.value.text + "\n" + Trim(lines[i])) + rest;
    }
  }

  /** After the last line, the open message is flushed as it stands. */
  lemma {:induction false} PendingAtEnd(header: string -> Option<Message>, messages: seq<Message>, current: Option<Message>, lines: seq<string>)
    ensures Pending(header, messages, current, lines, |lines|) == messages + (if current.Some? then [current.value] else [])
  {
    if current.Some? {
      assert current.value.text + [] == current.value.text;
    }
  }

  /** `parseMessages(text)`: the transcript's lines grouped into messages. */
  method ParseMessages(text: string) returns (messages: seq<Message>)
    ensures messages == Grouped(Header, Lines(text), 0)
  {
    messages := GroupLines(Header, Lines(text));
  }

  /**
   * The `forEach` over the lines with the final flush, for a given line
   * reader: a header line pushes the open message and opens its own, any
   * other line is trimmed onto the open message.
   */
  method GroupLines(header: string -> Option<Message>, lines: seq<string>) returns (messages: seq<Message>)
    ensures messages == Grouped(header, lines, 0)
  {
    messages := [];
    var current: Option<Message> := None;
    var i := 0;
    while i < |lines|
      invariant 0 <= i <= |lines|
      invariant Pending(header, messages, current, lines, i) == Grouped(header, lines, 0)
    {
      var line := lines[i];
      var found := header(line);
      if found.Some? {
        PendingAtHeader(header, messages, current, lines, i);
        if current.Some? {
          messages := messages + [current.value];
        }
        current := found;
      } else {
        PendingAtOther(header, messages, current, lines, i);
        if current.Some? {
          current := Some(current.value.(text := current.value.text + "\n" + Trim(line)));
        }
      }
      i := i + 1;
    }
    PendingAtEnd(header, messages, current, lines);
    if current.Some? {
      messages := messages + [current.value];
    }
  }

  // ---------------------------------------------------------------- properties

  /** Positions of the lines from position `i` on that `header` reads as headers, in increasing order. */
  function HeaderIndices(header: string -> Option<Message>, lines: seq<string>, i: nat): (r: seq<nat>)
    requires i <= |lines|
    ensures forall k :: 0 <= k < |r| ==> i <= r[k] < |lines| && header(lines[r[k]]).Some?
    decreases |lines| - i
  {
    if i == |lines| then []
    else if header(lines[i]).Some? then [i] + HeaderIndices(header, lines, i + 1)
    else HeaderIndices(header, lines, i + 1)
  }

  predicate Increasing(r: seq<nat>)
  {
    forall k, k' :: 0 <= k < k' < |r| ==> r[k] < r[k']
  }

  /** The positions are strictly increasing. */
  lemma {:induction false} HeaderIndicesIncreasing(header: string -> Option<Message>, lines: seq<string>, i: nat)
    requires i <= |lines|
    ensures Increasing(HeaderIndices(header, lines, i))
    decreases |lines| - i
  {
    if i < |lines| {
      HeaderIndicesIncreasing(header, lines, i + 1);
      var r, t := HeaderIndices(header, lines, i), HeaderIndices(header, lines, i + 1);
      if header(lines[i]).Some? {
        assert r == [i] + t;
        forall k, k' | 0 <= k < k' < |r| ensures r[k] < r[k'] {
          assert r[k'] == t[k' - 1] && i + 1 <= t[k' - 1];
          if 0 < k {
            assert r[k] == t[k - 1] && t[k - 1] < t[k' - 1];
          } else {
            assert r[k] == i;
          }
        }
      } else {
        assert r == t;
      }
    }
  }

  /** Every header line from position `i` on has its place among the positions. */
  lemma {:induction false} HeaderIndicesComplete(header: string -> Option<Message>, lines: seq<string>, i: nat)
    requires i <= |lines|
    ensures forall j :: i <= j < |lines| && header(lines[j]).Some? ==> j in HeaderIndices(header, lines, i)
    decreases |lines| - i
  {
    if i < |lines| {
      HeaderIndicesComplete(header, lines, i + 1);
      var r, t := HeaderIndices(header, lines, i), HeaderIndices(header, lines, i + 1);
      if header(lines[i]).Some? {
        assert r == [i] + t;
        forall j | i <= j < |lines| && header(lines[j]).Some? ensures j in r {
          if j == i {
            assert r[0] == i;
          } else {
            assert j in t;
          }
        }
      } else {
        assert r == t;
        forall j | i <= j < |lines| && header(lines[j]).Some? ensures j in r {
          assert j != i;
        }
      }
    }
  }

  /**
   * The messages of the lines from position `i` on line up with the header
   * positions: one message per header line, in the order of those lines;
   * the k-th message is opened by the k-th header line and carries the lines
   * that follow it up to the next header.
   */
  ghost predicate Aligned(header: string -> Option<Message>, lines: seq<string>, i: nat)
    requires i <= |lines|
  {
    var g, h := Grouped(header, lines, i), HeaderIndices(header, lines, i);
    && |g| == |h|
    && forall k :: 0 <= k < |g| ==> g[k] == Appended(header(lines[h[k]]).value, Continuation(header, lines, h[k] + 1))
  }

  lemma {:induction false} GroupedByHeaders(header: string -> Option<Message>, lines: seq<string>, i: nat)
    requires i <= |lines|
    ensures Aligned(header, lines, i)
    decreases |lines| - i
  {
    if i < |lines| {
      GroupedByHeaders(header, lines, i + 1);
      if header(lines[i]).Some? {
        AlignedAtHeader(header, lines, i);
      } else {
        assert Grouped(header, lines, i) == Grouped(header, lines, i + 1);
        assert HeaderIndices(header, lines, i) == HeaderIndices(header, lines, i + 1);
      }
    }
  }

  lemma {:induction false} AlignedAtHeader(header: string -> Option<Message>, lines: seq<string>, i: nat)
    requires i < |lines| && header(lines[i]).Some?
    requires Aligned(header, lines, i + 1)
    ensures Aligned(header, lines, i)
  {
    var g, h := Grouped(header, lines, i + 1), HeaderIndices(header, lines, i + 1);
    var m := Appended(header(lines[i]).value, Continuation(header, lines, i + 1));
    var g', h' := Grouped(header, lines, i), HeaderIndices(header, lines, i);
    assert g' == [m] + g;
    assert h' == [i] + h;
    forall k | 0 <= k < |g'|
      ensures g'[k] == Appended(header(lines[h'[k]]).value, Continuation(header, lines, h'[k] + 1))
    {
      if k > 0 {
        assert g'[k] == g[k - 1] && h'[k] == h[k - 1];
      }
    }
  }

  /** Lines before the first header are dropped. */
  lemma {:induction false} LeadingLinesDropped(header: string -> Option<Message>, lines: seq<string>, i: nat, j: nat)
    requires i <= j <= |lines|
    requires forall n :: i <= n < j ==> header(lines[n]).None?
    ensures Grouped(header, lines, i) == Grouped(header, lines, j)
    decreases j - i
  {
    if i < j {
      LeadingLinesDropped(header, lines, i + 1, j);
    }
  }

  /** `'\n' + line.trim()` for each line, concatenated. */
  function Joined(lines: seq<string>): string
  {
    if lines == [] then [] else "\n" + Trim(lines[0]) + Joined(lines[1..])
  }

  /** Up to the next header, the continuation is every following line, trimmed, blank lines included. */
  lemma {:induction false} ContinuationOf(header: string -> Option<Message>, lines: seq<string>, i: nat, j: nat)
    requires i <= j <= |lines|
    requires forall n :: i <= n < j ==> header(lines[n]).None?
    requires j == |lines| || header(lines[j]).Some?
    ensures Continuation(header, lines, i) == Joined(lines[i..j])
    decreases j - i
  {
    if i < j {
      ContinuationOf(header, lines, i + 1, j);
      assert lines[i..j][1..] == lines[i + 1..j];
    } else {
      assert lines[i..j] == [];
    }
  }

  /**
   * A header line followed by lines that are not headers gives one message,
   * whose text is the header's body followed by `'\n'` and each trimmed
   * line, blank lines included.
   */
  lemma {:induction false} ContinuationLines(header: string -> Option<Message>, first: string, more: seq<string>)
    requires header(first).Some?
    requires forall j :: 0 <= j < |more| ==> header(more[j]).None?
    ensures Grouped(header, [first] + more, 0) == [Appended(header(first).value, Joined(more))]
  {
    var lines := [first] + more;
    assert forall n :: 1 <= n < |lines| ==> lines[n] == more[n - 1];
    LeadingLinesDropped(header, lines, 1, |lines|);
    ContinuationOf(header, lines, 1, |lines|);
    assert lines[1..|lines|] == more;
  }

  /** The author of a message a header line opens holds no `:`, as the pattern's `[^:]+` requires. */
  lemma {:induction false} HeaderAuthorColonFree(line: string)
    ensures Header(line).Some? ==> ':' !in Header(line).value.author
  {
    var found := MatchHeader(line);
    if found.Some? {
      MatchedDecodable(line);
      TrimKeepsAbsent(found.value.author, ':');
    }
  }

  /** Grouping keeps the authors the reader gives: when none holds a `:`, no message does. */
  lemma {:induction false} AuthorsColonFree(header: string -> Option<Message>, lines: seq<string>, i: nat)
    requires i <= |lines|
    requires forall n :: i <= n < |lines| && header(lines[n]).Some? ==> ':' !in header(lines[n]).value.author
    ensures forall k :: 0 <= k < |Grouped(header, lines, i)| ==> ':' !in Grouped(header, lines, i)[k].author
    decreases |lines| - i
  {
    if i < |lines| {
      AuthorsColonFree(header, lines, i + 1);
    }
  }

  /** Every message `parseMessages` produces has an author free of `:`. */
  lemma {:induction false} ParsedAuthorsColonFree(text: string)
    ensures forall m :: m in Grouped(Header, Lines(text), 0) ==> ':' !in m.author
  {
    var lines := Lines(text);
    forall n | 0 <= n < |lines| && Header(lines[n]).Some?
      ensures ':' !in Header(lines[n]).value.author
    {
      HeaderAuthorColonFree(lines[n]);
    }
    AuthorsColonFree(Header, lines, 0);
  }

  /** A text shorter than the shortest header line holds no message. */
  lemma {:induction false} ShortTextNoMessages(text: string)
    requires |text| < 14
    ensures Grouped(Header, Lines(text), 0) == []
  {
    var lines := Lines(text);
    forall n | 0 <= n < |lines| ensures Header(lines[n]).None? {
      if MatchHeader(lines[n]).Some? {
        HeaderMinLength(lines[n]);
        assert false;
      }
    }
    LeadingLinesDropped(Header, lines, 0, |lines|);
  }
}
