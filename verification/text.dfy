/** Python string primitives the bot relies on: `str.isspace`, `str.strip`,
    `str.lower` (ASCII letters only), the substring test `a in b`,
    `str.split(sep)`, `sep.join(parts)` and `str.count(sep)`. */
module Text {
  import opened Results

  // ---------------------------------------------------------------------------
  // Characters
  // ---------------------------------------------------------------------------

  /** Python's `str.isspace()`: the characters `str.strip()` removes and the
      regular-expression class `\s` matches. */
  predicate IsSpace(c: char) {
    || ('\t' <= c <= '\r')
    || ('\U{1C}' <= c <= '\U{1F}')
    || c == ' '
    || c == '\U{85}'
    || c == '\U{A0}'
    || c == '\U{1680}'
    || ('\U{2000}' <= c <= '\U{200A}')
    || c == '\U{2028}'
    || c == '\U{2029}'
    || c == '\U{202F}'
    || c == '\U{205F}'
    || c == '\U{3000}'
  }

  predicate IsUpper(c: char) {
    'A' <= c <= 'Z'
  }

  function LowerChar(c: char): (d: char)
    ensures !IsUpper(d)
    ensures IsUpper(c) ==> d as int == c as int + 32
    ensures !IsUpper(c) ==> d == c
  {
    if IsUpper(c) then (c as int + 32) as char else c
  }

  /** `s.lower()`, restricted to the ASCII letters. */
  function Lower(s: string): (r: string)
    ensures |r| == |s|
    ensures forall i :: 0 <= i < |r| ==> !IsUpper(r[i])
    ensures forall i :: 0 <= i < |s| && !IsUpper(s[i]) ==> r[i] == s[i]
    ensures forall i :: 0 <= i < |s| && IsUpper(s[i]) ==> r[i] as int == s[i] as int + 32
  {
    seq(|s|, i requires 0 <= i < |s| => LowerChar(s[i]))
  }

  /** Lower-casing twice is lower-casing once. */
  lemma LowerIdempotent(s: string)
    ensures Lower(Lower(s)) == Lower(s)
  {
  }

  ghost predicate AllSpace(s: string) {
    forall i :: 0 <= i < |s| ==> IsSpace(s[i])
  }

  // ---------------------------------------------------------------------------
  // strip()
  // ---------------------------------------------------------------------------

  /** A string with no whitespace at either end: what `strip()` produces. */
  ghost predicate Trimmed(s: string) {
    s == [] || (!IsSpace(s[0]) && !IsSpace(s[|s| - 1]))
  }

  /** `s.lstrip()`. */
  function StripLeft(s: string): string {
    if |s| > 0 && IsSpace(s[0]) then StripLeft(s[1..]) else s
  }

  /** `s.rstrip()`. */
  function StripRight(s: string): string {
    if |s| > 0 && IsSpace(s[|s| - 1]) then StripRight(s[..|s| - 1]) else s
  }

  /** `lstrip` drops a whitespace-only prefix and stops at the first
      non-space. */
  lemma {:induction false} StripLeftSpec(s: string)
    ensures var r := StripLeft(s);
      && |r| <= |s| && r == s[|s| - |r|..]
      && AllSpace(s[..|s| - |r|])
      && (r == [] || !IsSpace(r[0]))
    decreases |s|
  {
    if |s| > 0 && IsSpace(s[0]) {
      var r := StripLeft(s[1..]);
      StripLeftSpec(s[1..]);
      assert StripLeft(s) == r;
      var k := |s| - |r|;
      assert s[1..][k - 1..] == s[k..];
      assert AllSpace(s[..k]) by {
        forall i | 0 <= i < k ensures IsSpace(s[..k][i]) {
          if i > 0 {
            assert s[..k][i] == s[1..][..k - 1][i - 1];
          }
        }
      }
    } else {
      assert s[..0] == [];
    }
  }

  /** `rstrip` drops a whitespace-only suffix and stops at the last
      non-space. */
  lemma {:induction false} StripRightSpec(s: string)
    ensures var r := StripRight(s);
      && |r| <= |s| && r == s[..|r|]
      && AllSpace(s[|r|..])
      && (r == [] || !IsSpace(r[|r| - 1]))
    decreases |s|
  {
    if |s| > 0 && IsSpace(s[|s| - 1]) {
      var r := StripRight(s[..|s| - 1]);
      StripRightSpec(s[..|s| - 1]);
      assert StripRight(s) == r;
      assert s[..|s| - 1][..|r|] == s[..|r|];
      assert s[|r|..] == s[..|s| - 1][|r|..] + [s[|s| - 1]];
      assert AllSpace(s[|r|..]) by {
        forall i | 0 <= i < |s| - |r| ensures IsSpace(s[|r|..][i]) {
          if i < |s| - 1 - |r| {
            assert s[|r|..][i] == s[..|s| - 1][|r|..][i];
          }
        }
      }
    } else {
      assert s[|s|..] == [];
    }
  }

  /** `r` is the part of `s` at offset `a` with only whitespace around it. */
  ghost predicate StrippedAt(s: string, r: string, a: int) {
    && 0 <= a && a + |r| <= |s|
    && s[a..a + |r|] == r
    && AllSpace(s[..a])
    && AllSpace(s[a + |r|..])
  }

  /** Python's `s.strip()`: no whitespace is left at either end. */
  function Strip(s: string): (r: string)
    ensures |r| <= |s|
    ensures Trimmed(r)
  {
    var left := StripLeft(s);
    StripLeftSpec(s);
    StripRightSpec(left);
    var r := StripRight(left);
    assert r != [] ==> r[0] == left[0];
    r
  }

  /** Strip returns the text between the leading and the trailing whitespace:
      a slice of `s` with only whitespace around it and none at its ends. */
  lemma StripSpec(s: string)
    ensures Trimmed(Strip(s))
    ensures exists a :: StrippedAt(s, Strip(s), a)
  {
    var left := StripLeft(s);
    var r := StripRight(left);
    StripLeftSpec(s);
    StripRightSpec(left);
    var a := |s| - |left|;
    assert s[a..a + |r|] == r;
    assert s[a + |r|..] == left[|r|..];
    assert StrippedAt(s, r, a);
  }

  /** Strip removes exactly the whitespace around the text, so a string that
      is already trimmed comes back unchanged. */
  lemma StripOfTrimmed(s: string)
    requires Trimmed(s)
    ensures Strip(s) == s
  {
    StripSpec(s);
    var r := Strip(s);
    var a :| StrippedAt(s, r, a);
  }

  /** Strip is idempotent. */
  lemma StripIdempotent(s: string)
    ensures Strip(Strip(s)) == Strip(s)
  {
    StripSpec(s);
    StripOfTrimmed(Strip(s));
  }

  /** Strip yields the empty string exactly for whitespace-only input, which is
      when Python treats `s.strip()` as false. */
  lemma StripEmptyIffBlank(s: string)
    ensures Strip(s) == [] <==> AllSpace(s)
  {
    StripSpec(s);
    var r := Strip(s);
    var a :| StrippedAt(s, r, a);
    if r == [] {
      forall i | 0 <= i < |s| ensures IsSpace(s[i]) {
        if i < a {
          assert s[..a][i] == s[i];
        } else {
          assert s[a..][i - a] == s[i];
        }
      }
    } else {
      assert s[a] == r[0];
    }
  }

  // ---------------------------------------------------------------------------
  // Substrings
  // ---------------------------------------------------------------------------

  /** `pat` occurs in `text` starting at offset `i`. */
  predicate MatchAt(text: string, pat: string, i: int) {
    0 <= i <= |text| && pat <= text[i..]
  }

  /** `pat` occurs somewhere in `text`. */
  ghost predicate Occurs(text: string, pat: string) {
    exists i | 0 <= i <= |text| :: MatchAt(text, pat, i)
  }

  /** Python's `pat in text`, decided by searching for the first occurrence. */
  predicate Contains(text: string, pat: string) {
    Find(text, pat).Some?
  }

  /** `name.lower() in text`: the test both the router and the answer
      formatter use to decide that a message names a player or team. */
  predicate Mentions(text: string, name: string) {
    Contains(text, Lower(name))
  }

  /** `names[i]` is the first of `names` that `text` mentions. */
  ghost predicate FirstHit(names: seq<string>, text: string, i: int) {
    && 0 <= i < |names|
    && Mentions(text, names[i])
    && forall j :: 0 <= j < i ==> !Mentions(text, names[j])
  }

  /** `text` mentions none of `names`. */
  ghost predicate NoHit(names: seq<string>, text: string) {
    forall j :: 0 <= j < |names| ==> !Mentions(text, names[j])
  }

  /** There is at most one first hit. */
  lemma FirstHitUnique(names: seq<string>, text: string, i: int, k: int)
    requires FirstHit(names, text, i) && FirstHit(names, text, k)
    ensures i == k
  {
  }

  /** The position of the first name in `names` whose lower-cased form
      `text` contains; the search stops at the first hit. */
  function FirstMentioned(names: seq<string>, text: string): (r: Option<nat>)
    ensures r.Some? ==> FirstHit(names, text, r.value)
    ensures r.None? ==> NoHit(names, text)
  {
    if |names| == 0 then None
    else if Mentions(text, names[0]) then Some(0)
    else
      match FirstMentioned(names[1..], text)
      case None => None
      case Some(k) => Some(k + 1)
  }

  lemma MatchAtShift(text: string, pat: string, i: int)
    requires |text| > 0 && 0 <= i
    ensures MatchAt(text, pat, i + 1) <==> MatchAt(text[1..], pat, i)
  {
    if i + 1 <= |text| {
      assert text[i + 1..] == text[1..][i..];
    }
  }

  /** When `pat` is not at the front of `text`, it occurs in `text` iff it
      occurs in `text[1..]`. */
  lemma OccursShift(text: string, pat: string)
    requires |text| > 0 && !(pat <= text)
    ensures Occurs(text, pat) <==> Occurs(text[1..], pat)
  {
    if Occurs(text, pat) {
      var i :| 0 <= i <= |text| && MatchAt(text, pat, i);
      MatchAtShift(text, pat, i - 1);
    }
    if Occurs(text[1..], pat) {
      var j :| 0 <= j <= |text[1..]| && MatchAt(text[1..], pat, j);
      MatchAtShift(text, pat, j);
    }
  }

  /** The offset of the first occurrence of `pat` in `text` (Python's
      `text.find(pat)`, with `None` for -1). */
  function Find(text: string, pat: string): (r: Option<nat>)
    ensures r.Some? ==> MatchAt(text, pat, r.value)
    ensures r.Some? ==> forall j :: 0 <= j < r.value ==> !MatchAt(text, pat, j)
    ensures r.None? ==> forall j :: 0 <= j <= |text| ==> !MatchAt(text, pat, j)
    decreases |text|
  {
    if pat <= text then
      assert MatchAt(text, pat, 0);
      Some(0)
    else if |text| == 0 then
      None
    else
      match Find(text[1..], pat)
      case None =>
        OccursShift(text, pat);
        None
      case Some(k) =>
        MatchAtShift(text, pat, k);
        assert forall j :: 0 <= j < k + 1 ==> !MatchAt(text, pat, j) by {
          forall j | 0 <= j < k + 1 ensures !MatchAt(text, pat, j) {
            if j > 0 {
              MatchAtShift(text, pat, j - 1);
            }
          }
        }
        Some(k + 1)
  }

  /** `pat in text` holds exactly when `pat` occurs at some offset of `text`. */
  lemma ContainsIffOccurs(text: string, pat: string)
    ensures Contains(text, pat) <==> Occurs(text, pat)
  {
    if Find(text, pat).Some? {
      assert MatchAt(text, pat, Find(text, pat).value);
    }
  }

  /** No match before offset `i` means no match inside the prefix `text[..i]`
      at all, even one that would run past `i`. */
  lemma NoMatchInPrefix(text: string, pat: string, i: nat)
    requires i <= |text|
    requires forall j :: 0 <= j < i ==> !MatchAt(text, pat, j)
    ensures !Occurs(text[..i], pat) || (pat == [] && i == 0)
  {
    if Occurs(text[..i], pat) {
      var j :| 0 <= j <= i && MatchAt(text[..i], pat, j);
      if j < i {
        assert text[..i][j..] == text[j..i];
        assert pat <= text[j..];
        assert MatchAt(text, pat, j);
      } else {
        assert pat == [];
        if i > 0 {
          assert MatchAt(text, pat, 0);
        }
      }
    }
  }

  // ---------------------------------------------------------------------------
  // split / join / count
  // ---------------------------------------------------------------------------

  /** Python's `text.split(sep)` for a non-empty separator: the pieces between
      the non-overlapping occurrences of `sep`, scanning left to right. */
  function Split(text: string, sep: string): (r: seq<string>)
    requires |sep| > 0
    ensures |r| >= 1
    decreases |text|
  {
    match Find(text, sep)
    case None => [text]
    case Some(i) => [text[..i]] + Split(text[i + |sep|..], sep)
  }

  /** No piece of a split contains the separator. */
  lemma {:induction false} SplitPiecesFree(text: string, sep: string, k: int)
    requires |sep| > 0 && 0 <= k < |Split(text, sep)|
    ensures !Contains(Split(text, sep)[k], sep)
    decreases |text|
  {
    match Find(text, sep)
    case None =>
    case Some(i) =>
      var rest := text[i + |sep|..];
      assert Split(text, sep) == [text[..i]] + Split(rest, sep);
      if k == 0 {
        NoMatchInPrefix(text, sep, i);
        ContainsIffOccurs(text[..i], sep);
      } else {
        SplitPiecesFree(rest, sep, k - 1);
      }
  }

  /** The first piece of a split is a prefix of the text; it is non-empty
      when the text does not start with the separator. */
  lemma SplitHead(text: string, sep: string)
    requires |sep| > 0
    ensures Split(text, sep)[0] <= text
    ensures |text| > 0 && text[0] != sep[0] ==> |Split(text, sep)[0]| > 0
  {
    match Find(text, sep)
    case None =>
    case Some(i) =>
      if i == 0 && |text| > 0 {
        assert text[0] == sep[0];
      }
  }

  /** Python's `sep.join(parts)`: the parts in order with the separator
      once between neighbours, so the first part opens the text. */
  function Join(sep: string, parts: seq<string>): (r: string)
    ensures |parts| > 0 ==> parts[0] <= r
  {
    if |parts| == 0 then ""
    else if |parts| == 1 then parts[0]
    else parts[0] + sep + Join(sep, parts[1..])
  }

  /** Python's `text.count(pat)` for a non-empty pattern: the number of
      non-overlapping occurrences, scanning left to right. */
  function Count(text: string, pat: string): nat
    requires |pat| > 0
    decreases |text|
  {
    if |text| < |pat| then 0
    else if pat <= text then 1 + Count(text[|pat|..], pat)
    else Count(text[1..], pat)
  }

  /** The occurrences `count` finds do not overlap, so together they fit in
      the text. */
  lemma {:induction false} CountFits(text: string, pat: string)
    requires |pat| > 0
    ensures Count(text, pat) * |pat| <= |text|
    decreases |text|
  {
    if |text| >= |pat| {
      if pat <= text {
        var rest := text[|pat|..];
        var m := Count(rest, pat);
        assert Count(text, pat) == 1 + m;
        CountFits(rest, pat);
        MulStep(m, |pat|, |rest|);
      } else {
        CountFits(text[1..], pat);
        assert Count(text, pat) == Count(text[1..], pat);
      }
    }
  }

  /** Splitting and joining with the same separator gives back the text. */
  lemma {:induction false} JoinSplit(text: string, sep: string)
    requires |sep| > 0
    ensures Join(sep, Split(text, sep)) == text
    decreases |text|
  {
    match Find(text, sep)
    case None =>
      assert Split(text, sep) == [text];
    case Some(i) =>
      var head := text[..i];
      var rest := text[i + |sep|..];
      var ps := Split(rest, sep);
      JoinSplit(rest, sep);
      assert Split(text, sep) == [head] + ps;
      JoinCons(sep, head, ps);
      assert text == head + sep + rest;
  }

  /** Joining a part in front of a non-empty list puts one separator after it. */
  lemma JoinCons(sep: string, p: string, ps: seq<string>)
    requires |ps| > 0
    ensures Join(sep, [p] + ps) == p + sep + Join(sep, ps)
  {
    assert ([p] + ps)[1..] == ps;
  }

  /** One more occurrence of length `k` fits when `k` more characters come. */
  lemma MulStep(m: nat, k: nat, n: nat)
    requires m * k <= n
    ensures (m + 1) * k <= n + k
  {
  }

  /** Skipping a prefix that holds no occurrence start does not change the count. */
  lemma {:induction false} CountSkip(text: string, pat: string, i: nat)
    requires |pat| > 0 && i <= |text|
    requires forall j :: 0 <= j < i ==> !MatchAt(text, pat, j)
    ensures Count(text, pat) == Count(text[i..], pat)
    decreases i
  {
    if i > 0 {
      assert !MatchAt(text, pat, 0);
      if |text| < |pat| {
        assert |text[i..]| < |pat|;
      } else {
        forall j | 0 <= j < i - 1 ensures !MatchAt(text[1..], pat, j) {
          MatchAtShift(text, pat, j);
        }
        CountSkip(text[1..], pat, i - 1);
        assert text[1..][i - 1..] == text[i..];
      }
    }
  }

  /** `text.split(sep)` has exactly one piece more than `text.count(sep)`. */
  lemma {:induction false} SplitCount(text: string, sep: string)
    requires |sep| > 0
    ensures |Split(text, sep)| == Count(text, sep) + 1
    decreases |text|
  {
    match Find(text, sep)
    case None =>
      CountNone(text, sep);
      assert Split(text, sep) == [text];
    case Some(i) =>
      CountAtFind(text, sep, i);
      SplitAtFind(text, sep, i);
      SplitCount(text[i + |sep|..], sep);
  }

  /** A text with no occurrence counts none. */
  lemma CountNone(text: string, sep: string)
    requires |sep| > 0 && Find(text, sep).None?
    ensures Count(text, sep) == 0
  {
    forall j | 0 <= j < |text| ensures !MatchAt(text, sep, j) {
      assert 0 <= j <= |text|;
    }
    CountSkip(text, sep, |text|);
    assert text[|text|..] == [];
  }

  /** The first occurrence is counted, and counting resumes after it. */
  lemma CountAtFind(text: string, sep: string, i: nat)
    requires |sep| > 0 && Find(text, sep) == Some(i)
    ensures i + |sep| <= |text|
    ensures Count(text, sep) == 1 + Count(text[i + |sep|..], sep)
  {
    var t := text[i..];
    CountSkip(text, sep, i);
    assert sep <= t && |t| >= |sep|;
    assert t[|sep|..] == text[i + |sep|..];
  }

  /** Splitting at the occurrence `Find` reports. */
  lemma SplitAtFind(text: string, sep: string, i: nat)
    requires |sep| > 0 && Find(text, sep) == Some(i)
    ensures i + |sep| <= |text|
    ensures |Split(text, sep)| == 1 + |Split(text[i + |sep|..], sep)|
  {
    SplitAtFirst(text, sep);
    var j := Find(text, sep).value;
    assert j == i;
    assert text[j + |sep|..] == text[i + |sep|..];
  }

  /** The first occurrence ends the first piece, and splitting resumes after it. */
  lemma SplitAtFirst(text: string, sep: string)
    requires |sep| > 0 && Find(text, sep).Some?
    ensures var i := Find(text, sep).value;
      && i + |sep| <= |text|
      && |Split(text, sep)| == 1 + |Split(text[i + |sep|..], sep)|
  {
    match Find(text, sep)
    case Some(i) =>
      assert MatchAt(text, sep, i);
      var rest := text[i + |sep|..];
      assert Split(text, sep) == [text[..i]] + Split(rest, sep);
  }

  /** Joining pieces that do not contain a one-character separator and
      splitting again recovers the pieces. */
  lemma {:induction false} SplitJoin(parts: seq<string>, sep: string)
    requires |sep| == 1 && |parts| > 0
    requires forall k :: 0 <= k < |parts| ==> sep[0] !in parts[k]
    ensures Split(Join(sep, parts), sep) == parts
    decreases |parts|
  {
    var text := Join(sep, parts);
    var p := parts[0];
    NoSeparatorInHead(text, p, sep);
    if |parts| == 1 {
      assert text == p;
      FindAbsent(text, sep);
    } else {
      var rest := Join(sep, parts[1..]);
      assert text == p + sep + rest;
      assert MatchAt(text, sep, |p|) by {
        assert text[|p|..] == sep + rest;
      }
      FindFirst(text, sep, |p|);
      assert text[..|p|] == p;
      assert text[|p| + |sep|..] == rest;
      SplitJoin(parts[1..], sep);
      assert Split(text, sep) == [p] + Split(rest, sep);
    }
  }

  /** A one-character separator that a prefix of the text does not contain
      matches nowhere inside that prefix. */
  lemma NoSeparatorInHead(text: string, p: string, sep: string)
    requires |sep| == 1 && p <= text && sep[0] !in p
    ensures forall j :: 0 <= j < |p| ==> !MatchAt(text, sep, j)
  {
    forall j | 0 <= j < |p| ensures !MatchAt(text, sep, j) {
      assert text[j] == p[j];
      assert text[j..][0] == text[j];
    }
  }

  /** A match with none before it is what Find returns. */
  lemma FindFirst(text: string, pat: string, i: int)
    requires MatchAt(text, pat, i)
    requires forall j :: 0 <= j < i ==> !MatchAt(text, pat, j)
    ensures Find(text, pat) == Some(i)
  {
  }

  /** A one-character pattern absent from the text is not found. */
  lemma FindAbsent(text: string, sep: string)
    requires |sep| == 1 && sep[0] !in text
    ensures Find(text, sep).None?
  {
    NoSeparatorInHead(text, text, sep);
    assert !MatchAt(text, sep, |text|) by {
      assert text[|text|..] == [];
    }
  }
}
