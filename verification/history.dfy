/** The retrieval loop's short chat memory: the (question, answer) log that is
    appended after every answer and capped at `MaxHistory` entries, and the
    context text `build_context` renders from it. */
module History {

  datatype Entry = Entry(question: string, answer: string)

  /** `MAX_HISTORY`: the number of interactions kept. */
  const MaxHistory: nat := 5

  /** Append the new entry, then drop the oldest one if the log is now over
      the cap (a single `pop(0)`). */
  function Record(history: seq<Entry>, e: Entry): (r: seq<Entry>)
    ensures |r| > 0 && r[|r| - 1] == e
    ensures |history| < MaxHistory ==> |r| == |history| + 1
    ensures |history| <= MaxHistory ==> |r| <= MaxHistory
    ensures |history| >= MaxHistory ==> |r| == |history|
    ensures r[..|r| - 1] == history[|history| + 1 - |r|..]
  {
    var appended := history + [e];
    if |appended| > MaxHistory then appended[1..] else appended
  }

  /** The log after recording `es` one after the other. */
  function RecordAll(history: seq<Entry>, es: seq<Entry>): seq<Entry>
    decreases |es|
  {
    if |es| == 0 then history else RecordAll(Record(history, es[0]), es[1..])
  }

  /** The last `n` elements of `s` (all of `s` when it is shorter). */
  function LastN<T>(s: seq<T>, n: nat): (r: seq<T>)
    ensures |r| == if |s| < n then |s| else n
  {
    if |s| <= n then s else s[|s| - n..]
  }

  /** Starting from a log within the cap, recording any sequence of entries
      leaves exactly the last `MaxHistory` of all entries, oldest first. */
  lemma {:induction false} RecordAllKeepsLast(history: seq<Entry>, es: seq<Entry>)
    requires |history| <= MaxHistory
    ensures RecordAll(history, es) == LastN(history + es, MaxHistory)
    decreases |es|
  {
    if |es| == 0 {
      assert history + es == history;
    } else {
      var h1 := Record(history, es[0]);
      assert RecordAll(history, es) == RecordAll(h1, es[1..]);
      RecordAllKeepsLast(h1, es[1..]);
      RecordThenRest(history, es);
    }
  }

  /** Recording the first entry and keeping the last `MaxHistory` of the
      rest is keeping the last `MaxHistory` of everything. */
  lemma RecordThenRest(history: seq<Entry>, es: seq<Entry>)
    requires |history| <= MaxHistory && |es| > 0
    ensures LastN(Record(history, es[0]) + es[1..], MaxHistory) == LastN(history + es, MaxHistory)
  {
    var a := history + [es[0]];
    RecordIsLastN(history, es[0]);
    LastNAppend(a, es[1..], MaxHistory);
    assert history + es == a + es[1..];
  }

  /** From a log within the cap, one step keeps the last `MaxHistory` entries. */
  lemma RecordIsLastN(history: seq<Entry>, e: Entry)
    requires |history| <= MaxHistory
    ensures Record(history, e) == LastN(history + [e], MaxHistory)
  {
  }

  /** Taking the last `n` before appending more changes nothing about the
      last `n` afterwards. */
  lemma LastNAppend<T>(a: seq<T>, b: seq<T>, n: nat)
    ensures LastN(LastN(a, n) + b, n) == LastN(a + b, n)
  {
    if |a| > n {
      var c := a[|a| - n..];
      if |c + b| > n {
        assert (c + b)[|c + b| - n..] == (a + b)[|a + b| - n..];
      }
    }
  }

  /** After `n` answers from an empty log, the log holds the last
      `min(n, MaxHistory)` of them in the order they were asked. */
  lemma FromEmpty(es: seq<Entry>)
    ensures RecordAll([], es) == LastN(es, MaxHistory)
    ensures |RecordAll([], es)| == if |es| < MaxHistory then |es| else MaxHistory
  {
    RecordAllKeepsLast([], es);
    assert [] + es == es;
  }

  /** The text one entry contributes to the context. */
  function EntryText(e: Entry): string {
    "User: " + e.question + "\nAI: " + e.answer + "\n"
  }

  /** The context for a log: the entries' texts, oldest first. Every entry
      contributes at least its two labels and two newlines. */
  function Context(history: seq<Entry>): (r: string)
    ensures r == [] <==> history == []
    ensures |r| >= 12 * |history|
  {
    if |history| == 0 then ""
    else Context(history[..|history| - 1]) + EntryText(history[|history| - 1])
  }

  /** The context of two logs one after the other is the two contexts one
      after the other. */
  lemma {:induction false} ContextAppend(a: seq<Entry>, b: seq<Entry>)
    ensures Context(a + b) == Context(a) + Context(b)
    decreases |b|
  {
    if |b| == 0 {
      assert a + b == a;
    } else {
      var b' := b[..|b| - 1];
      var e := b[|b| - 1];
      assert (a + b)[..|a + b| - 1] == a + b';
      assert (a + b)[|a + b| - 1] == e;
      assert Context(a + b) == Context(a + b') + EntryText(e);
      assert Context(b) == Context(b') + EntryText(e);
      ContextAppend(a, b');
    }
  }

  /** The context starts with the oldest entry's text. */
  lemma ContextFront(history: seq<Entry>)
    requires |history| > 0
    ensures Context(history) == EntryText(history[0]) + Context(history[1..])
  {
    var head := [history[0]];
    var tail := history[1..];
    assert history == head + tail;
    ContextAppend(head, tail);
    assert head[..0] == [];
    assert Context(head[..0]) == "";
    assert Context(head) == EntryText(history[0]);
  }

  /** `build_context(history)`, the loop over the log. */
  method BuildContext(history: seq<Entry>) returns (context: string)
    ensures context == Context(history)
  {
    context := "";
    var i := 0;
    while i < |history|
      invariant 0 <= i <= |history|
      invariant context == Context(history[..i])
    {
      context := context + "User: " + history[i].question + "\n";
      context := context + "AI: " + history[i].answer + "\n";
      assert history[..i + 1][..i] == history[..i];
      i := i + 1;
    }
    assert history[..i] == history;
  }
}
