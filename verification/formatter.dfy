/** `format_team_answer`: turns a retrieved chunk (a team name line followed
    by one player per line) and the user's query into the reply text. */
module Formatter {
  import opened Results
  import opened Text
  import Chunker

  /** A chunk read as a record: the team name and its players. */
  datatype TeamRecord = TeamRecord(team: string, members: seq<string>)

  /** The lines of a chunk, each stripped, with blank lines left out. */
  function Lines(chunk: string): (r: seq<string>)
    ensures forall k :: 0 <= k < |r| ==> r[k] != [] && Trimmed(r[k])
    ensures |r| <= Count(chunk, "\n") + 1
  {
    var pieces := Split(chunk, "\n");
    SplitCount(chunk, "\n");
    forall k | 0 <= k < |Chunker.NonBlankStripped(pieces)|
      ensures Chunker.NonBlankStripped(pieces)[k] != [] && Trimmed(Chunker.NonBlankStripped(pieces)[k])
    {
      Chunker.NonBlankStrippedClean(pieces, k);
    }
    Chunker.NonBlankStripped(pieces)
  }

  /** `s.replace(":", "")`: every colon goes, wherever it stands. */
  function RemoveColons(s: string): (r: string)
    ensures ':' !in r
    ensures |r| <= |s|
  {
    if |s| == 0 then ""
    else (if s[0] == ':' then "" else [s[0]]) + RemoveColons(s[1..])
  }

  /** Only colons are removed: every other character keeps its number of
      occurrences, and the length drops by the number of colons. */
  lemma {:induction false} RemoveColonsKeepsOthers(s: string)
    ensures |RemoveColons(s)| == |s| - multiset(s)[':']
    ensures forall c :: c != ':' ==> multiset(RemoveColons(s))[c] == multiset(s)[c]
    decreases |s|
  {
    if |s| > 0 {
      RemoveColonsKeepsOthers(s[1..]);
      assert s == [s[0]] + s[1..];
      var head := if s[0] == ':' then "" else [s[0]];
      var rest := RemoveColons(s[1..]);
      assert RemoveColons(s) == head + rest;
      assert multiset(s) == multiset([s[0]]) + multiset(s[1..]);
      assert multiset(RemoveColons(s)) == multiset(head) + multiset(rest);
    }
  }

  /** Removing colons works piecewise, so the surviving characters keep
      their order. */
  lemma {:induction false} RemoveColonsAppend(a: string, b: string)
    ensures RemoveColons(a + b) == RemoveColons(a) + RemoveColons(b)
    decreases |a|
  {
    if |a| > 0 {
      var head := if a[0] == ':' then "" else [a[0]];
      assert (a + b)[0] == a[0];
      assert (a + b)[1..] == a[1..] + b;
      assert RemoveColons(a + b) == head + RemoveColons(a[1..] + b);
      assert RemoveColons(a) == head + RemoveColons(a[1..]);
      RemoveColonsAppend(a[1..], b);
    } else {
      assert a + b == b;
    }
  }

  /** The first non-blank line minus its colons is the team name, the
      remaining non-blank lines are the members; without any non-blank line
      `lines[0]` raises IndexError. */
  function ParseRecord(lines: seq<string>): (r: Result<TeamRecord>)
    ensures r.Err? <==> lines == []
    ensures r.Err? ==> r.fault == IndexError
    ensures r.Ok? ==> r.value.team == RemoveColons(lines[0]) && ':' !in r.value.team
    ensures r.Ok? ==> |r.value.members| + 1 == |lines|
    ensures r.Ok? ==> forall k :: 0 <= k < |r.value.members| ==> r.value.members[k] == lines[k + 1]
  {
    if |lines| == 0 then Err(IndexError)
    else Ok(TeamRecord(RemoveColons(lines[0]), lines[1..]))
  }

  /** One bulleted line per player, in order; a non-empty list ends with a
      newline. */
  function Bullets(members: seq<string>): (r: string)
    ensures members != [] ==> |r| > 0 && r[|r| - 1] == '\n'
  {
    if |members| == 0 then ""
    else
      var tail := Bullets(members[1..]);
      var r := ("\U{2022} " + members[0]) + "\n" + tail;
      assert tail != [] ==> r[|r| - 1] == tail[|tail| - 1];
      r
  }

  /** The bulleted line of each item, without its newline. */
  function BulletLines(items: seq<string>): (r: seq<string>)
    ensures |r| == |items|
    ensures forall i :: 0 <= i < |items| ==> r[i] == "\U{2022} " + items[i]
  {
    if |items| == 0 then [] else ["\U{2022} " + items[0]] + BulletLines(items[1..])
  }

  /** The bullet text is the bulleted lines joined by newlines, with a final
      newline after the last one. */
  lemma {:induction false} BulletsAsJoin(members: seq<string>)
    ensures Bullets(members) == Join("\n", BulletLines(members) + [""])
    decreases |members|
  {
    if |members| > 0 {
      var tail := BulletLines(members[1..]) + [""];
      BulletsAsJoin(members[1..]);
      assert BulletLines(members) + [""] == ["\U{2022} " + members[0]] + tail;
      JoinCons("\n", "\U{2022} " + members[0], tail);
    }
  }

  /** The bulleted list of a concatenation is the concatenation of the lists. */
  lemma {:induction false} BulletsAppend(a: seq<string>, b: seq<string>)
    ensures Bullets(a + b) == Bullets(a) + Bullets(b)
    decreases |a|
  {
    if |a| > 0 {
      assert (a + b)[0] == a[0];
      assert (a + b)[1..] == a[1..] + b;
      BulletsAppend(a[1..], b);
    } else {
      assert a + b == b;
    }
  }

  /** Each player contributes its name plus three characters: the bullet,
      the space and the newline. */
  lemma {:induction false} BulletsLength(members: seq<string>)
    ensures |Bullets(members)| == |members| * 3 + SumLengths(members)
    decreases |members|
  {
    if |members| > 0 {
      BulletsLength(members[1..]);
    }
  }

  function SumLengths(xs: seq<string>): nat {
    if |xs| == 0 then 0 else |xs[0]| + SumLengths(xs[1..])
  }

  /** The generic answer: a header line naming the team, then the bulleted
      players. */
  function TeamListing(team: string, members: seq<string>): (r: string)
    ensures |r| >= |team| && r[..|team|] == team
    ensures |r| > 0 && r[|r| - 1] == '\n'
    ensures members == [] ==> r == team + " Players:\n"
  {
    var header := team + " Players:\n";
    var body := Bullets(members);
    var r := header + body;
    assert body != [] ==> r[|r| - 1] == body[|body| - 1];
    r
  }

  /** When neither the team nor any player holds a newline, the listing's
      lines are the header, one bulleted line per player in order, and the
      empty piece after the final newline. */
  lemma TeamListingLines(team: string, members: seq<string>)
    requires '\n' !in team
    requires forall i :: 0 <= i < |members| ==> '\n' !in members[i]
    ensures Split(TeamListing(team, members), "\n") ==
              [team + " Players:"] + BulletLines(members) + [""]
  {
    var parts := [team + " Players:"] + BulletLines(members) + [""];
    TeamListingAsJoin(team, members);
    ListingPartsFree(team, members);
    SplitJoin(parts, "\n");
  }

  /** The listing is its header, bulleted lines and final empty piece joined
      by newlines. */
  lemma TeamListingAsJoin(team: string, members: seq<string>)
    ensures TeamListing(team, members) ==
              Join("\n", [team + " Players:"] + BulletLines(members) + [""])
  {
    var header := team + " Players:";
    var rest := BulletLines(members) + [""];
    BulletsAsJoin(members);
    JoinCons("\n", header, rest);
    assert [header] + BulletLines(members) + [""] == [header] + rest;
    assert header + "\n" == team + " Players:\n";
  }

  /** No piece of the listing holds a newline when the names do not. */
  lemma ListingPartsFree(team: string, members: seq<string>)
    requires '\n' !in team
    requires forall i :: 0 <= i < |members| ==> '\n' !in members[i]
    ensures var parts := [team + " Players:"] + BulletLines(members) + [""];
      forall k :: 0 <= k < |parts| ==> "\n"[0] !in parts[k]
  {
    var parts := [team + " Players:"] + BulletLines(members) + [""];
    assert '\n' !in " Players:";
    assert '\n' !in "\U{2022} ";
    forall k | 0 <= k < |parts| ensures "\n"[0] !in parts[k] {
      if k == 0 {
        assert parts[k] == team + " Players:";
      } else if k <= |members| {
        assert parts[k] == BulletLines(members)[k - 1] == "\U{2022} " + members[k - 1];
      } else {
        assert parts[k] == "";
      }
    }
  }

  /** The announcement for a mentioned player: it opens with the player's
      name and ends with a blank line before the listing. */
  function BelongsTo(player: string, team: string): (r: string)
    ensures player <= r
    ensures |r| >= 2 && r[|r| - 2..] == "\n\n"
  {
    player + " belongs to " + team + ".\n\n"
  }

  /** `format_team_answer(chunk, query)`: when the lower-cased query
      mentions a player of the chunk, the first such player in list order is
      announced before the generic listing; otherwise the listing alone. */
  function FormatTeamAnswer(chunk: string, query: string): (r: Result<string>)
    ensures r.Err? <==> Lines(chunk) == []
    ensures r.Err? ==> r.fault == IndexError
    ensures r.Ok? ==> |r.value| > 0 && r.value[|r.value| - 1] == '\n'
    ensures var lines := Lines(chunk);
      lines != [] && NoHit(lines[1..], Lower(query)) ==>
        r == Ok(TeamListing(RemoveColons(lines[0]), lines[1..]))
    ensures var lines := Lines(chunk);
      forall i :: lines != [] && FirstHit(lines[1..], Lower(query), i) ==>
        r == Ok(BelongsTo(lines[1..][i], RemoveColons(lines[0])) +
                TeamListing(RemoveColons(lines[0]), lines[1..]))
  {
    var lines := Lines(chunk);
    match ParseRecord(lines)
    case Err(f) => Err(f)
    case Ok(rec) =>
      assert rec == TeamRecord(RemoveColons(lines[0]), lines[1..]);
      Ok(Answer(rec, Lower(query)))
  }

  /** The reply for a parsed record and a lower-cased query. */
  function Answer(rec: TeamRecord, query: string): (r: string)
    ensures |r| > 0 && r[|r| - 1] == '\n'
    ensures NoHit(rec.members, query) ==> r == TeamListing(rec.team, rec.members)
    ensures forall i :: FirstHit(rec.members, query, i) ==>
              r == BelongsTo(rec.members[i], rec.team) + TeamListing(rec.team, rec.members)
  {
    var listing := TeamListing(rec.team, rec.members);
    match FirstMentioned(rec.members, query)
    case Some(i) =>
      assert forall k :: FirstHit(rec.members, query, k) ==> k == i by {
        forall k | FirstHit(rec.members, query, k) ensures k == i {
          FirstHitUnique(rec.members, query, i, k);
        }
      }
      var answer := BelongsTo(rec.members[i], rec.team) + listing;
      assert answer[|answer| - 1] == listing[|listing| - 1];
      answer
    case None =>
      listing
  }

  /** Every chunk the chunker produces has a team line, so formatting a
      retrieved chunk never raises. */
  lemma ChunksHaveLabels(text: string, k: int, query: string)
    requires 0 <= k < |Chunker.Chunks(text)|
    ensures FormatTeamAnswer(Chunker.Chunks(text)[k], query).Ok?
  {
    var c := Chunker.Chunks(text)[k];
    assert c != [] && Trimmed(c);
    SplitHead(c, "\n");
    var pieces := Split(c, "\n");
    var p := pieces[0];
    assert p[0] == c[0];
    assert !AllSpace(p);
    Chunker.NonBlankStrippedSingle(p);
    assert pieces == [p] + pieces[1..];
    Chunker.NonBlankStrippedAppend([p], pieces[1..]);
  }
}
