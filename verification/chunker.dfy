/** The knowledge-text chunker of the retrieval loop: the text is split on
    every blank line ("\n\n"), each piece is stripped, and blank pieces are
    dropped. */
module Chunker {
  import opened Text

  /** The separator between knowledge records. */
  const BlankLine: string := "\n\n"

  /** Each piece stripped, with the pieces that strip to nothing left out;
      the survivors keep their original order. */
  function NonBlankStripped(pieces: seq<string>): (r: seq<string>)
    ensures |r| <= |pieces|
  {
    if |pieces| == 0 then [] else Kept(pieces[0]) + NonBlankStripped(pieces[1..])
  }

  /** What one piece contributes: its strip, unless that is empty. */
  function Kept(p: string): seq<string> {
    var t := Strip(p);
    if t != [] then [t] else []
  }

  /** Every kept piece is non-empty with no whitespace at either end. */
  lemma {:induction false} NonBlankStrippedClean(pieces: seq<string>, k: int)
    requires 0 <= k < |NonBlankStripped(pieces)|
    ensures NonBlankStripped(pieces)[k] != [] && Trimmed(NonBlankStripped(pieces)[k])
    decreases |pieces|
  {
    var head := Kept(pieces[0]);
    var rest := NonBlankStripped(pieces[1..]);
    var r := NonBlankStripped(pieces);
    assert r == head + rest;
    if k < |head| {
      assert r[k] == head[0] == Strip(pieces[0]);
    } else {
      assert r[k] == rest[k - |head|];
      NonBlankStrippedClean(pieces[1..], k - |head|);
    }
  }

  /** The stripped-and-filtered list of a concatenation is the concatenation
      of the lists: nothing is reordered or merged across pieces. */
  lemma {:induction false} NonBlankStrippedAppend(a: seq<string>, b: seq<string>)
    ensures NonBlankStripped(a + b) == NonBlankStripped(a) + NonBlankStripped(b)
    decreases |a|
  {
    if |a| > 0 {
      var head := Kept(a[0]);
      assert (a + b)[0] == a[0];
      assert (a + b)[1..] == a[1..] + b;
      assert NonBlankStripped(a + b) == head + NonBlankStripped(a[1..] + b);
      assert NonBlankStripped(a) == head + NonBlankStripped(a[1..]);
      NonBlankStrippedAppend(a[1..], b);
    } else {
      assert a + b == b;
    }
  }

  /** A whitespace-only piece contributes nothing; any other piece contributes
      exactly its stripped text. */
  lemma NonBlankStrippedSingle(p: string)
    ensures AllSpace(p) ==> NonBlankStripped([p]) == []
    ensures !AllSpace(p) ==> NonBlankStripped([p]) == [Strip(p)]
  {
    StripEmptyIffBlank(p);
    assert [p][1..] == [];
  }

  /** A string is in the list exactly when it is the non-empty strip of
      some piece. */
  lemma {:induction false} NonBlankStrippedMembers(pieces: seq<string>, x: string)
    ensures x in NonBlankStripped(pieces) <==>
            x != [] && exists k :: 0 <= k < |pieces| && Strip(pieces[k]) == x
    decreases |pieces|
  {
    if |pieces| > 0 {
      var head := Kept(pieces[0]);
      assert NonBlankStripped(pieces) == head + NonBlankStripped(pieces[1..]);
      assert x in head <==> x != [] && Strip(pieces[0]) == x;
      NonBlankStrippedMembers(pieces[1..], x);
      SomeStripCons(pieces, x);
    }
  }

  /** Some piece strips to `x` exactly when the first one does or some
      later one does. */
  lemma SomeStripCons(pieces: seq<string>, x: string)
    requires |pieces| > 0
    ensures (exists k :: 0 <= k < |pieces| && Strip(pieces[k]) == x) <==>
            Strip(pieces[0]) == x || exists k :: 0 <= k < |pieces[1..]| && Strip(pieces[1..][k]) == x
  {
    if exists k :: 0 <= k < |pieces| && Strip(pieces[k]) == x {
      var k :| 0 <= k < |pieces| && Strip(pieces[k]) == x;
      if k > 0 {
        assert pieces[1..][k - 1] == pieces[k];
      }
    }
    if exists k :: 0 <= k < |pieces[1..]| && Strip(pieces[1..][k]) == x {
      var k :| 0 <= k < |pieces[1..]| && Strip(pieces[1..][k]) == x;
      assert pieces[k + 1] == pieces[1..][k];
    }
  }


  /** The chunks of a knowledge text: the text cut at every blank line, each
      piece stripped, and the pieces that are blank dropped. */
  function Chunks(text: string): (r: seq<string>)
    ensures forall k :: 0 <= k < |r| ==> r[k] != [] && Trimmed(r[k])
    ensures |r| <= Count(text, BlankLine) + 1
  {
    var r := NonBlankStripped(Split(text, BlankLine));
    SplitCount(text, BlankLine);
    forall k | 0 <= k < |r| ensures r[k] != [] && Trimmed(r[k]) {
      NonBlankStrippedClean(Split(text, BlankLine), k);
    }
    r
  }

  /** Every chunk is non-empty and equal to its own strip. */
  lemma ChunksAreStripped(text: string, k: int)
    requires 0 <= k < |Chunks(text)|
    ensures Chunks(text)[k] != [] && Strip(Chunks(text)[k]) == Chunks(text)[k]
  {
    StripOfTrimmed(Chunks(text)[k]);
  }
}
