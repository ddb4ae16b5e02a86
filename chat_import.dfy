/**
 * Importing a transcript (app.js:147-149, 196-212): the text guard, the
 * empty-result guard, the per-author message tally, the ranking of the
 * participants by message count, and the chat name built from the top two.
 */
module ChatImport {
  import opened Wrappers
  import opened Text
  import opened MessageDecode
  import opened ParserWorker

  datatype ImportError = EmptyOrDamaged | UnknownFormat
  {
    /** The message the error is raised with (app.js:148, app.js:197). */
    function Reason(): (r: string)
      ensures r != []
    {
      match this
      case EmptyOrDamaged => "El archivo parece estar vac\U{ED}o o da\U{F1}ado."
      case UnknownFormat => "Chat vac\U{ED}o o formato desconocido."
    }
  }

  /** The two refusals are reported with different messages. */
  lemma ReasonsDistinct()
    ensures EmptyOrDamaged.Reason() != UnknownFormat.Reason()
  {
    assert EmptyOrDamaged.Reason()[0] != UnknownFormat.Reason()[0];
  }

  /** What an import saves: the chat name, the messages and the ranked participants. */
  datatype ChatRecord = ChatRecord(name: string, msgs: seq<Message>, participants: seq<string>)

  // ---------------------------------------------------------------- the text guard

  /** `text.length`: characters beyond the Basic Multilingual Plane take two UTF-16 units. */
  function Utf16Length(s: string): (n: nat)
    ensures |s| <= n <= 2 * |s|
  {
    if s == [] then 0
    else Utf16Length(s[..|s| - 1]) + (if s[|s| - 1] as int >= 0x1_0000 then 2 else 1)
  }

  /** `!text || text.length < 10`: the text is rejected before it is parsed. */
  predicate TooShort(text: string)
  {
    text == [] || Utf16Length(text) < 10
  }

  /** The guard only turns away texts that could not hold a message anyway. */
  lemma {:induction false} TooShortHasNoMessages(text: string)
    requires TooShort(text)
    ensures Grouped(Header, Lines(text), 0) == []
  {
    ShortTextNoMessages(text);
  }

  // ---------------------------------------------------------------- the tally

  /** How many of the messages `author` wrote. */
  function Occurrences(msgs: seq<Message>, author: string): nat
  {
    if msgs == [] then 0
    else Occurrences(msgs[..|msgs| - 1], author) + (if msgs[|msgs| - 1].author == author then 1 else 0)
  }

  predicate Distinct(s: seq<string>)
  {
    forall i, j :: 0 <= i < j < |s| ==> s[i] != s[j]
  }

  /** The sum of the counts of the listed authors. */
  function Total(order: seq<string>, counts: map<string, nat>): nat
    requires forall a :: a in order ==> a in counts
  {
    if order == [] then 0 else Total(order[..|order| - 1], counts) + counts[order[|order| - 1]]
  }

  /** Changing the count of an author who is not listed leaves the sum alone. */
  lemma {:induction false} TotalUnlisted(order: seq<string>, counts: map<string, nat>, a: string, n: nat)
    requires forall b :: b in order ==> b in counts
    requires a !in order
    ensures Total(order, counts[a := n]) == Total(order, counts)
  {
    if order != [] {
      var init := order[..|order| - 1];
      assert a !in init by {
        forall k | 0 <= k < |init| ensures init[k] != a {
          assert init[k] == order[k];
        }
      }
      TotalUnlisted(init, counts, a, n);
    }
  }

  /** Adding one to a listed author's count adds one to the sum. */
  lemma {:induction false} TotalBump(order: seq<string>, counts: map<string, nat>, a: string)
    requires forall b :: b in order ==> b in counts
    requires Distinct(order) && a in order
    ensures Total(order, counts[a := counts[a] + 1]) == Total(order, counts) + 1
  {
    var init, last := order[..|order| - 1], order[|order| - 1];
    assert forall b :: b in init ==> b in order;
    assert Distinct(init) by {
      forall i, j | 0 <= i < j < |init| ensures init[i] != init[j] {
        assert init[i] == order[i] && init[j] == order[j];
      }
    }
    if last == a {
      assert a !in init by {
        forall k | 0 <= k < |init| ensures init[k] != a {
          assert init[k] == order[k];
        }
      }
      TotalUnlisted(init, counts, a, counts[a] + 1);
    } else {
      assert a in init by {
        var k :| 0 <= k < |order| && order[k] == a;
        assert k < |order| - 1 && init[k] == a;
      }
      TotalBump(init, counts, a);
    }
  }

  /** The tally after the first `i` messages: keys, counts, key order and their sum. */
  ghost predicate Tallied(msgs: seq<Message>, i: nat, order: seq<string>, counts: map<string, nat>)
    requires i <= |msgs|
  {
    && (forall a :: a in counts <==> Occurrences(msgs[..i], a) > 0)
    && (forall a :: a in counts ==> counts[a] == Occurrences(msgs[..i], a))
    && Distinct(order) && (forall a :: a in order <==> a in counts)
    && Total(order, counts) == i
  }

  /** One more message adds one to its author's count and leaves the others alone. */
  lemma {:induction false} OccurrencesStep(msgs: seq<Message>, i: nat)
    requires i < |msgs|
    ensures forall a :: Occurrences(msgs[..i + 1], a) == Occurrences(msgs[..i], a) + (if msgs[i].author == a then 1 else 0)
  {
    assert msgs[..i + 1][..i] == msgs[..i];
  }

  /** A message by an author already counted bumps that author's count. */
  lemma {:induction false} TalliedBump(msgs: seq<Message>, i: nat, order: seq<string>, counts: map<string, nat>)
    requires i < |msgs| && Tallied(msgs, i, order, counts) && msgs[i].author in counts
    ensures Tallied(msgs, i + 1, order, counts[msgs[i].author := counts[msgs[i].author] + 1])
  {
    OccurrencesStep(msgs, i);
    TotalBump(order, counts, msgs[i].author);
  }

  /** A message by a new author adds that author, with a count of one, at the end of the keys. */
  lemma {:induction false} TalliedFresh(msgs: seq<Message>, i: nat, order: seq<string>, counts: map<string, nat>)
    requires i < |msgs| && Tallied(msgs, i, order, counts) && msgs[i].author !in counts
    ensures Tallied(msgs, i + 1, order + [msgs[i].author], counts[msgs[i].author := 1])
  {
    var author := msgs[i].author;
    OccurrencesStep(msgs, i);
    TotalUnlisted(order, counts, author, 1);
    assert Distinct(order + [author]) by {
      forall k | 0 <= k < |order| ensures (order + [author])[k] != author {
        assert order[k] in counts;
      }
    }
    assert (order + [author])[..|order|] == order;
  }

  /**
   * `parsed.forEach(m => authors[m.author] = (authors[m.author] || 0) + 1)`:
   * `order` lists the keys in the order they were first set, `counts` maps
   * each author to the number of messages they wrote.
   */
  method TallyAuthors(msgs: seq<Message>) returns (order: seq<string>, counts: map<string, nat>)
    ensures forall a :: a in counts <==> Occurrences(msgs, a) > 0
    ensures forall a :: a in counts ==> counts[a] == Occurrences(msgs, a)
    ensures Distinct(order) && forall a :: a in order <==> a in counts
    ensures Total(order, counts) == |msgs|
  {
    order := [];
    counts := map[];
    var i := 0;
    while i < |msgs|
      invariant 0 <= i <= |msgs|
      invariant Tallied(msgs, i, order, counts)
    {
      var author := msgs[i].author;
      if author in counts {
        TalliedBump(msgs, i, order, counts);
        counts := counts[author := counts[author] + 1];
      } else {
        TalliedFresh(msgs, i, order, counts);
        order := order + [author];
        counts := counts[author := 1];
      }
      i := i + 1;
    }
    assert msgs[..i] == msgs;
  }

  // ---------------------------------------------------------------- the ranking

  /** Listed by non-increasing count. */
  predicate Descending(s: seq<string>, counts: map<string, nat>)
    requires forall a :: a in s ==> a in counts
  {
    forall i, j :: 0 <= i < j < |s| ==> counts[s[i]] >= counts[s[j]]
  }

  /** Places `x` after every author with at least its count, keeping the order of the others. */
  function Insert(x: string, s: seq<string>, counts: map<string, nat>): (r: seq<string>)
    requires x in counts && forall a :: a in s ==> a in counts
    ensures multiset(r) == multiset(s) + multiset{x}
    ensures forall a :: a in r <==> a == x || a in s
  {
    if s == [] then [x]
    else if counts[s[0]] >= counts[x] then
      assert s == [s[0]] + s[1..];
      [s[0]] + Insert(x, s[1..], counts)
    else
      [x] + s
  }

  /** Inserting into a descending list keeps it descending. */
  lemma {:induction false} InsertDescending(x: string, s: seq<string>, counts: map<string, nat>)
    requires x in counts && forall a :: a in s ==> a in counts
    requires Descending(s, counts)
    ensures Descending(Insert(x, s, counts), counts)
  {
    if s == [] {
    } else if counts[s[0]] >= counts[x] {
      var tail := s[1..];
      assert forall k :: 0 <= k < |tail| ==> tail[k] == s[k + 1];
      assert forall a :: a in tail ==> counts[s[0]] >= counts[a];
      InsertDescending(x, tail, counts);
      var rest := Insert(x, tail, counts);
      assert Insert(x, s, counts) == [s[0]] + rest;
      HeadDescending(s[0], rest, counts);
    } else {
      PrependDescending(x, s, counts);
    }
  }

  /** An author counted at least as high as everyone in a descending list can go first. */
  lemma {:induction false} HeadDescending(x: string, s: seq<string>, counts: map<string, nat>)
    requires x in counts && forall a :: a in s ==> a in counts
    requires Descending(s, counts) && forall a :: a in s ==> counts[x] >= counts[a]
    ensures Descending([x] + s, counts)
  {
    if s != [] {
      PrependDescending(x, s, counts);
    }
  }

  /** An author counted at least as high as the head of a descending list can go first. */
  lemma {:induction false} PrependDescending(x: string, s: seq<string>, counts: map<string, nat>)
    requires x in counts && forall a :: a in s ==> a in counts
    requires Descending(s, counts) && (s == [] || counts[x] >= counts[s[0]])
    ensures Descending([x] + s, counts)
  {
    var r := [x] + s;
    forall i, j | 0 <= i < j < |r| ensures counts[r[i]] >= counts[r[j]] {
      assert r[j] == s[j - 1];
      if i > 0 {
        assert r[i] == s[i - 1];
      } else if j > 1 {
        assert counts[s[0]] >= counts[s[j - 1]];
      }
    }
  }

  /** Inserting an author not yet listed into a list without repeats gives a list without repeats. */
  lemma {:induction false} InsertDistinct(x: string, s: seq<string>, counts: map<string, nat>)
    requires x in counts && forall a :: a in s ==> a in counts
    requires x !in s && Distinct(s)
    ensures Distinct(Insert(x, s, counts))
  {
    if s != [] && counts[s[0]] >= counts[x] {
      var tail := s[1..];
      assert forall k :: 0 <= k < |tail| ==> tail[k] == s[k + 1];
      assert Distinct(tail);
      InsertDistinct(x, tail, counts);
      var rest := Insert(x, tail, counts);
      assert s[0] !in rest;
      var r := [s[0]] + rest;
      forall i, j | 0 <= i < j < |r| ensures r[i] != r[j] {
        assert r[j] == rest[j - 1];
        if i > 0 {
          assert r[i] == rest[i - 1];
        }
      }
    }
  }

  /**
   * `Object.keys(authors).sort((a, b) => authors[b] - authors[a])`: the same
   * authors, by non-increasing count.
   */
  function Ranked(order: seq<string>, counts: map<string, nat>): (r: seq<string>)
    requires forall a :: a in order ==> a in counts
    ensures multiset(r) == multiset(order)
    ensures forall a :: a in r <==> a in order
    ensures Descending(r, counts)
    ensures Distinct(order) ==> Distinct(r)
  {
    if order == [] then []
    else
      var init, last := order[..|order| - 1], order[|order| - 1];
      assert order == init + [last];
      assert forall a :: a in init ==> a in order;
      assert Distinct(order) ==> last !in init && Distinct(init) by {
        if Distinct(order) {
          forall k | 0 <= k < |init| ensures init[k] != last {
            assert init[k] == order[k];
          }
          forall i, j | 0 <= i < j < |init| ensures init[i] != init[j] {
            assert init[i] == order[i] && init[j] == order[j];
          }
        }
      }
      var sorted := Ranked(init, counts);
      InsertDescending(last, sorted, counts);
      assert Distinct(order) ==> Distinct(Insert(last, sorted, counts)) by {
        if Distinct(order) {
          InsertDistinct(last, sorted, counts);
        }
      }
      Insert(last, sorted, counts)
  }

  /** The first ranked author wrote at least as many messages as anyone. */
  lemma {:induction false} RankedTop(order: seq<string>, counts: map<string, nat>)
    requires forall a :: a in order ==> a in counts
    requires order != []
    ensures var r := Ranked(order, counts); r != [] && forall a :: a in order ==> counts[a] <= counts[r[0]]
  {
    var r := Ranked(order, counts);
    assert order[0] in r;
    forall a | a in order ensures counts[a] <= counts[r[0]] {
      var k :| 0 <= k < |r| && r[k] == a;
      if k > 0 {
        assert counts[r[0]] >= counts[r[k]];
      }
    }
  }

  /**
   * `sortedAuthors.slice(0, 2).join(' & ')`: the top author alone, or the
   * top two joined by " & ", or the empty name when nobody wrote.
   */
  function ChatName(ranked: seq<string>): (r: string)
    ensures ranked == [] ==> r == []
    ensures |ranked| == 1 ==> r == ranked[0]
    ensures |ranked| >= 2 ==> r == ranked[0] + " & " + ranked[1]
  {
    var top := ranked[..if |ranked| < 2 then |ranked| else 2];
    assert |ranked| >= 2 ==> top[1..] == [ranked[1]] && Join(top[1..], " & ") == ranked[1];
    Join(top, " & ")
  }

  // ---------------------------------------------------------------- the import

  /**
   * What the parser's result becomes: an error when it holds no message,
   * otherwise the record with the participants ranked by message count and
   * the chat named after the top two.
   */
  method FinishImport(parsed: seq<Message>) returns (r: Result<ChatRecord, ImportError>)
    ensures r.Failure? <==> parsed == []
    ensures r.Failure? ==> r.error == UnknownFormat
    ensures r.Success? ==> r.value.msgs == parsed
    ensures r.Success? ==> var p := r.value.participants;
      && Distinct(p)
      && (forall a :: a in p <==> Occurrences(parsed, a) > 0)
      && (forall i, j :: 0 <= i < j < |p| ==> Occurrences(parsed, p[i]) >= Occurrences(parsed, p[j]))
      && r.value.name == ChatName(p)
  {
    if |parsed| == 0 {
      return Failure(UnknownFormat);
    }
    var order, counts := TallyAuthors(parsed);
    var ranked := Ranked(order, counts);
    r := Success(ChatRecord(ChatName(ranked), parsed, ranked));
  }

  /**
   * The two guards around the parser: a text that is missing or shorter
   * than ten UTF-16 units is refused as damaged; a text in which no header
   * is found is refused as of unknown format.
   */
  method ImportText(text: string) returns (r: Result<ChatRecord, ImportError>)
    ensures TooShort(text) ==> r == Failure(EmptyOrDamaged)
    ensures !TooShort(text) ==> (r.Failure? <==> Grouped(Header, Lines(text), 0) == [])
    ensures !TooShort(text) && r.Failure? ==> r.error == UnknownFormat
    ensures r.Success? ==> r.value.msgs == Grouped(Header, Lines(text), 0) && r.value.participants != []
  {
    if text == [] || Utf16Length(text) < 10 {
      return Failure(EmptyOrDamaged);
    }
    var parsed := ParseMessages(text);
    r := FinishImport(parsed);
    if r.Success? {
      assert parsed[0].author in r.value.participants by {
        assert parsed == parsed[..|parsed| - 1] + [parsed[|parsed| - 1]];
        OccursAtIndex(parsed, 0);
      }
    }
  }

  /** An author of one of the messages has a positive count. */
  lemma {:induction false} OccursAtIndex(msgs: seq<Message>, k: nat)
    requires k < |msgs|
    ensures Occurrences(msgs, msgs[k].author) > 0
  {
    if k < |msgs| - 1 {
      assert msgs[..|msgs| - 1][k] == msgs[k];
      OccursAtIndex(msgs[..|msgs| - 1], k);
    }
  }
}
