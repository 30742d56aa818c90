/** `process_message`: the keyword router of the chat webhook. A message is
    lower-cased and stripped, then the first rule that applies decides the
    reply: greeting, "about", "purpose", "rule"/"format", "point", a
    `day\s*(\d)` schedule lookup, a player name, a team name, and finally a
    fixed apology. The knowledge record is a parameter. */
module Router {
  import opened Results
  import opened Text
  import Formatter

  // ---------------------------------------------------------------------------
  // The knowledge record
  // ---------------------------------------------------------------------------

  /** One scheduled match; the day and time are kept as their printed text. */
  datatype Fixture = Fixture(day: string, game: string, time: string)

  /** A schedule value: a list of fixtures, or any other value, of which only
      its Python truth value matters to the router. */
  datatype ScheduleValue = Fixtures(list: seq<Fixture>) | Scalar(truthy: bool)

  datatype GameFormat = GameFormat(kind: string, leagueOvers: string, finalOvers: string)

  datatype PointsTable = PointsTable(win: string, loss: string, tie: string)

  datatype AboutInfo = AboutInfo(
    description: string,
    purpose: seq<string>,
    format: GameFormat,
    points: PointsTable)

  /** The bot's data file. Python dicts keep insertion order, so the schedule
      and the teams are ordered lists of (key, value) pairs with distinct keys. */
  datatype Knowledge = Knowledge(
    about: AboutInfo,
    schedule: seq<(string, ScheduleValue)>,
    teams: seq<(string, seq<string>)>)

  // ---------------------------------------------------------------------------
  // Fixed replies
  // ---------------------------------------------------------------------------

  const Greetings: seq<string> := ["hi", "hello", "hey"]

  const GreetingMenu: string :=
    "Hello \U{1F44B}\nAGPL\U{2013}2026 WhatsApp Bot \U{1F3CF}\n\n" +
    "Ask:\n" +
    "\U{2022} About AGPL\n" +
    "\U{2022} Rules / Points\n" +
    "\U{2022} Day 2 matches\n" +
    "\U{2022} Player name\n" +
    "\U{2022} Team name"

  const NotUnderstood: string :=
    "Sorry \U{274C} I didn\U{2019}t understand. Try: Prasad, West team, Day 2 matches"

  /** The message lower-cased and then stripped: no whitespace at either
      end and no upper-case letter left. */
  function Normalize(msg: string): (r: string)
    ensures |r| <= |msg| && Trimmed(r)
    ensures forall i :: 0 <= i < |r| ==> !IsUpper(r[i])
  {
    var l := Lower(msg);
    var r := Strip(l);
    assert forall i :: 0 <= i < |r| ==> !IsUpper(r[i]) by {
      StripSpec(l);
      var a :| StrippedAt(l, r, a);
      forall i | 0 <= i < |r| ensures r[i] == l[a + i] {
        assert l[a..a + |r|][i] == l[a + i];
      }
    }
    r
  }

  // ---------------------------------------------------------------------------
  // The `day\s*(\d)` search
  // ---------------------------------------------------------------------------

  predicate IsDigit(c: char) {
    '0' <= c <= '9'
  }

  /** The regular expression matches at `i` with its digit at `j`: "day",
      then only whitespace, then a digit. */
  ghost predicate DayMatch(s: string, i: int, j: int) {
    && 0 <= i && i + 3 <= j < |s|
    && s[i..i + 3] == "day"
    && AllSpace(s[i + 3..j])
    && IsDigit(s[j])
  }

  /** The end of the run of whitespace starting at `i`. */
  function SkipSpaces(s: string, i: int): (j: int)
    requires 0 <= i <= |s|
    ensures i <= j <= |s|
    ensures AllSpace(s[i..j])
    ensures j < |s| ==> !IsSpace(s[j])
    decreases |s| - i
  {
    if i < |s| && IsSpace(s[i]) then
      var j := SkipSpaces(s, i + 1);
      assert s[i..j] == [s[i]] + s[i + 1..j];
      j
    else i
  }

  /** The captured digit when the regular expression matches at offset `i`. */
  function DayAt(s: string, i: int): (r: Option<char>)
    requires 0 <= i <= |s|
    ensures r.Some? ==> exists j :: DayMatch(s, i, j) && s[j] == r.value
    ensures r.None? ==> forall j :: !DayMatch(s, i, j)
  {
    if i + 3 <= |s| && s[i..i + 3] == "day" then
      var j := SkipSpaces(s, i + 3);
      if j < |s| && IsDigit(s[j]) then
        assert DayMatch(s, i, j);
        Some(s[j])
      else
        assert forall j' :: !DayMatch(s, i, j') by {
          forall j' | DayMatch(s, i, j') ensures false {
            DigitBetweenSpaces(s, i + 3, j, j');
          }
        }
        None
    else None
  }

  /** A digit after a run of whitespace is the first non-space after it. */
  lemma DigitBetweenSpaces(s: string, from: int, j: int, j': int)
    requires 0 <= from <= j <= |s| && AllSpace(s[from..j]) && (j < |s| ==> !IsSpace(s[j]))
    requires from <= j' < |s| && AllSpace(s[from..j']) && IsDigit(s[j'])
    ensures j' == j && j < |s| && IsDigit(s[j])
  {
    SpacesIn(s, from, j);
    SpacesIn(s, from, j');
  }

  /** Every character of an all-whitespace slice is whitespace. */
  lemma SpacesIn(s: string, from: int, to: int)
    ensures 0 <= from <= to <= |s| && AllSpace(s[from..to]) ==>
              forall k :: from <= k < to ==> IsSpace(s[k])
  {
    if 0 <= from <= to <= |s| && AllSpace(s[from..to]) {
      forall k | from <= k < to ensures IsSpace(s[k]) {
        assert s[from..to][k - from] == s[k];
      }
    }
  }

  /** `re.search(r"day\s*(\d)", s)`: the digit of the leftmost match at or
      after offset `i`. */
  function ScanDayFrom(s: string, i: int): (r: Option<char>)
    requires 0 <= i <= |s|
    ensures r.Some? ==> exists k :: i <= k <= |s| && DayAt(s, k) == r &&
                          forall k' :: i <= k' < k ==> DayAt(s, k').None?
    ensures r.None? ==> forall k :: i <= k <= |s| ==> DayAt(s, k).None?
    decreases |s| - i
  {
    match DayAt(s, i)
    case Some(c) => Some(c)
    case None =>
      if i == |s| then None
      else
        var r := ScanDayFrom(s, i + 1);
        r
  }

  /** `re.search(r"day\s*(\d)", s)`: no digit exactly when the expression
      matches nowhere; otherwise the digit of a match that no match starts
      before. */
  function ScanDay(s: string): (r: Option<char>)
    ensures r.None? <==> forall i, j :: !DayMatch(s, i, j)
    ensures r.Some? ==> exists i, j :: DayMatch(s, i, j) && s[j] == r.value &&
                          forall i', j' :: i' < i ==> !DayMatch(s, i', j')
  {
    var r := ScanDayFrom(s, 0);
    DayScanAgrees(s, r);
    r
  }

  /** What the leftmost-offset scan says about the matches themselves. */
  lemma DayScanAgrees(s: string, r: Option<char>)
    requires r == ScanDayFrom(s, 0)
    ensures r.None? <==> forall i, j :: !DayMatch(s, i, j)
    ensures r.Some? ==> exists i, j :: DayMatch(s, i, j) && s[j] == r.value &&
                          forall i', j' :: i' < i ==> !DayMatch(s, i', j')
  {
    if r.Some? {
      var k :| 0 <= k <= |s| && DayAt(s, k) == r && forall k' :: 0 <= k' < k ==> DayAt(s, k').None?;
      var j :| DayMatch(s, k, j) && s[j] == r.value;
      forall i', j' | i' < k ensures !DayMatch(s, i', j') {
        if 0 <= i' {
          assert DayAt(s, i').None?;
        }
      }
    } else {
      forall i, j ensures !DayMatch(s, i, j) {
        if 0 <= i <= |s| {
          assert DayAt(s, i).None?;
        }
      }
    }
  }

  /** The leftmost match decides the digit. */
  lemma ScanDayLeftmost(s: string, k: int, c: char)
    requires 0 <= k <= |s| && DayAt(s, k) == Some(c)
    requires forall k' :: 0 <= k' < k ==> DayAt(s, k').None?
    ensures ScanDay(s) == Some(c)
  {
    var r := ScanDay(s);
    assert r.Some?;
    var m :| 0 <= m <= |s| && DayAt(s, m) == r && forall k' :: 0 <= k' < m ==> DayAt(s, k').None?;
    assert m == k;
  }

  /** "day 2 matches" asks for day 2. */
  lemma DayTwoExample()
    ensures ScanDay("day 2 matches") == Some('2')
  {
    var s := "day 2 matches";
    assert s[0..3] == "day";
    assert SkipSpaces(s, 3) == 4;
    ScanDayLeftmost(s, 0, '2');
  }

  /** The group is a single digit, so "day12" asks for day 1. */
  lemma SingleDigitDay()
    ensures ScanDay("day12") == Some('1')
  {
    var s := "day12";
    assert s[0..3] == "day";
    assert SkipSpaces(s, 3) == 3;
    ScanDayLeftmost(s, 0, '1');
  }

  // ---------------------------------------------------------------------------
  // Schedule and team lookups
  // ---------------------------------------------------------------------------

  /** `d.get(key)` on an ordered list of pairs: the value of the first pair
      with that key. */
  function Get<V>(pairs: seq<(string, V)>, key: string): (r: Option<V>)
    ensures r.Some? ==> exists k :: 0 <= k < |pairs| && pairs[k] == (key, r.value) &&
                          forall j :: 0 <= j < k ==> pairs[j].0 != key
    ensures r.None? ==> forall k :: 0 <= k < |pairs| ==> pairs[k].0 != key
  {
    if |pairs| == 0 then None
    else if pairs[0].0 == key then Some(pairs[0].1)
    else
      var r := Get(pairs[1..], key);
      assert r.Some? ==> exists k :: 0 <= k < |pairs| && pairs[k] == (key, r.value) &&
                           forall j :: 0 <= j < k ==> pairs[j].0 != key by {
        if r.Some? {
          var k :| 0 <= k < |pairs[1..]| && pairs[1..][k] == (key, r.value) &&
                   forall j :: 0 <= j < k ==> pairs[1..][j].0 != key;
          assert pairs[k + 1] == (key, r.value);
          forall j | 0 <= j < k + 1 ensures pairs[j].0 != key {
            if j > 0 {
              assert pairs[j] == pairs[1..][j - 1];
            }
          }
        }
      }
      r
  }

  /** The printed line of one fixture: its day, its match and its time. It
      is a single line exactly when none of the three fields holds a newline. */
  function FixtureLine(f: Fixture): (r: string)
    ensures '\n' in r <==> '\n' in f.day || '\n' in f.game || '\n' in f.time
  {
    assert '\n' !in "Day " && '\n' !in " \U{2013} " && '\n' !in " at ";
    "Day " + f.day + " \U{2013} " + f.game + " at " + f.time
  }

  function FixtureLines(fs: seq<Fixture>): (r: seq<string>)
    ensures |r| == |fs|
    ensures forall i :: 0 <= i < |fs| ==> r[i] == FixtureLine(fs[i])
  {
    if |fs| == 0 then [] else [FixtureLine(fs[0])] + FixtureLines(fs[1..])
  }

  /** The fixtures of one schedule list whose match text contains the team
      name, case-sensitively, in list order. */
  function GamesOf(team: string, fs: seq<Fixture>): (r: seq<Fixture>)
    ensures |r| <= |fs|
    ensures forall f :: f in r ==> f in fs && Contains(f.game, team)
    ensures forall f :: f in fs && Contains(f.game, team) ==> f in r
  {
    if |fs| == 0 then []
    else (if Contains(fs[0].game, team) then [fs[0]] else []) + GamesOf(team, fs[1..])
  }

  /** The "Matches" list of a team: over every list-valued schedule entry in
      order, the fixtures whose match text contains the team name; values that
      are not lists are skipped. */
  function TeamFixtures(team: string, schedule: seq<(string, ScheduleValue)>): (r: seq<Fixture>)
    ensures forall f :: f in r ==> Contains(f.game, team)
  {
    if |schedule| == 0 then []
    else
      (match schedule[0].1
       case Fixtures(fs) => GamesOf(team, fs)
       case Scalar(_) => []) + TeamFixtures(team, schedule[1..])
  }

  /** One day's list contributes its matching fixtures in list order: the
      list of a concatenation is the concatenation of the lists. */
  lemma {:induction false} GamesOfAppend(team: string, a: seq<Fixture>, b: seq<Fixture>)
    ensures GamesOf(team, a + b) == GamesOf(team, a) + GamesOf(team, b)
    decreases |a|
  {
    if |a| == 0 {
      assert a + b == b;
    } else {
      assert (a + b)[0] == a[0];
      assert (a + b)[1..] == a[1..] + b;
      GamesOfAppend(team, a[1..], b);
    }
  }

  /** A single fixture is kept exactly when its match text contains the team
      name. */
  lemma GamesOfSingle(team: string, f: Fixture)
    ensures Contains(f.game, team) ==> GamesOf(team, [f]) == [f]
    ensures !Contains(f.game, team) ==> GamesOf(team, [f]) == []
  {
    assert [f][1..] == [];
  }

  /** A fixture is listed exactly when it sits in a list-valued schedule entry
      and its match text contains the team name. */
  lemma {:induction false} TeamFixturesMembers(team: string, schedule: seq<(string, ScheduleValue)>, f: Fixture)
    ensures f in TeamFixtures(team, schedule) <==>
            Contains(f.game, team) &&
            exists k :: 0 <= k < |schedule| && schedule[k].1.Fixtures? && f in schedule[k].1.list
    decreases |schedule|
  {
    if |schedule| > 0 {
      TeamFixturesMembers(team, schedule[1..], f);
      var head := match schedule[0].1 case Fixtures(fs) => GamesOf(team, fs) case Scalar(_) => [];
      assert TeamFixtures(team, schedule) == head + TeamFixtures(team, schedule[1..]);
      if exists k :: 0 <= k < |schedule| && schedule[k].1.Fixtures? && f in schedule[k].1.list {
        var k :| 0 <= k < |schedule| && schedule[k].1.Fixtures? && f in schedule[k].1.list;
        if k > 0 {
          assert schedule[1..][k - 1] == schedule[k];
        }
      }
      if exists k :: 0 <= k < |schedule[1..]| && schedule[1..][k].1.Fixtures? && f in schedule[1..][k].1.list {
        var k :| 0 <= k < |schedule[1..]| && schedule[1..][k].1.Fixtures? && f in schedule[1..][k].1.list;
        assert schedule[k + 1] == schedule[1..][k];
      }
    }
  }

  /** The list follows schedule order: entries contribute in turn. */
  lemma {:induction false} TeamFixturesAppend(team: string, a: seq<(string, ScheduleValue)>, b: seq<(string, ScheduleValue)>)
    ensures TeamFixtures(team, a + b) == TeamFixtures(team, a) + TeamFixtures(team, b)
    decreases |a|
  {
    if |a| == 0 {
      assert a + b == b;
    } else {
      assert (a + b)[0] == a[0];
      assert (a + b)[1..] == a[1..] + b;
      TeamFixturesAppend(team, a[1..], b);
    }
  }

  /** A value that is not a list adds nothing to any team's matches. */
  lemma ScalarEntrySkipped(team: string, key: string, truthy: bool)
    ensures TeamFixtures(team, [(key, Scalar(truthy))]) == []
  {
    assert [(key, Scalar(truthy))][1..] == [];
  }

  function TeamNames(teams: seq<(string, seq<string>)>): (r: seq<string>)
    ensures |r| == |teams|
    ensures forall t :: 0 <= t < |teams| ==> r[t] == teams[t].0
  {
    if |teams| == 0 then [] else [teams[0].0] + TeamNames(teams[1..])
  }

  /** `(t, p)` is the first team/player pair, in iteration order, whose
      lower-cased player name occurs in `n`. */
  ghost predicate FirstPlayerPair(teams: seq<(string, seq<string>)>, n: string, t: int, p: int) {
    && 0 <= t < |teams|
    && FirstHit(teams[t].1, n, p)
    && forall t' :: 0 <= t' < t ==> NoHit(teams[t'].1, n)
  }

  /** No player of any team is mentioned in `n`. */
  ghost predicate NoPlayer(teams: seq<(string, seq<string>)>, n: string) {
    forall t :: 0 <= t < |teams| ==> NoHit(teams[t].1, n)
  }

  /** The player search: teams in order, and within a team its players in
      order; the first player mentioned stops it. */
  function FirstPlayerHit(teams: seq<(string, seq<string>)>, n: string): (r: Option<(nat, nat)>)
    ensures r.Some? ==> FirstPlayerPair(teams, n, r.value.0, r.value.1)
    ensures r.None? ==> NoPlayer(teams, n)
  {
    if |teams| == 0 then None
    else
      match FirstMentioned(teams[0].1, n)
      case Some(p) => Some((0, p))
      case None =>
        match FirstPlayerHit(teams[1..], n)
        case None => None
        case Some(hit) =>
          assert teams[hit.0 + 1] == teams[1..][hit.0];
          Some((hit.0 + 1, hit.1))
  }

  lemma FirstPlayerPairUnique(teams: seq<(string, seq<string>)>, n: string, t: int, p: int, t2: int, p2: int)
    requires FirstPlayerPair(teams, n, t, p) && FirstPlayerPair(teams, n, t2, p2)
    ensures t == t2 && p == p2
  {
    assert t == t2;
    FirstHitUnique(teams[t].1, n, p, p2);
  }

  // ---------------------------------------------------------------------------
  // Routing
  // ---------------------------------------------------------------------------

  /** Which rule answers a message. */
  datatype Decision =
    | Greeting
    | AboutText
    | PurposeList
    | FormatRules
    | PointsRules
    | DayFixtures(fixtures: seq<Fixture>)
    | PlayerCard(team: string, player: string)
    | TeamCard(team: string, players: seq<string>)
    | Fallback
    // the day reply loop meets a truthy value that is not a list: TypeError
    | NotIterable

  /** The schedule rule: the first `day<d>` in the message whose schedule
      value is truthy answers; a missing, empty or false value falls
      through. A truthy value that is not a list makes the reply loop index
      a non-record and raise TypeError. */
  function DayRule(n: string, data: Knowledge): (r: Option<Decision>)
    ensures r.Some? ==> ScanDay(n).Some?
    ensures ScanDay(n).Some? ==>
              var v := Get(data.schedule, "day" + [ScanDay(n).value]);
              && (r.Some? <==> v.Some? && Truthy(v.value))
              && (r.Some? && v.value.Fixtures? ==> r == Some(DayFixtures(v.value.list)))
              && (r.Some? && v.value.Scalar? ==> r == Some(NotIterable))
  {
    match ScanDay(n)
    case None => None
    case Some(c) =>
      var v: Option<ScheduleValue> := Get(data.schedule, "day" + [c]);
      match v
      case None => None
      case Some(Fixtures(fs)) => if |fs| > 0 then Some(DayFixtures(fs)) else None
      case Some(Scalar(truthy)) => if truthy then Some(NotIterable) else None
  }

  /** Python's truth value of a schedule value: a list is true when it is not
      empty. */
  predicate Truthy(v: ScheduleValue) {
    match v
    case Fixtures(fs) => |fs| > 0
    case Scalar(t) => t
  }

  /** The player search, then the team search, then the apology. */
  function NameLookup(n: string, data: Knowledge): (d: Decision)
    ensures d.PlayerCard? || d.TeamCard? || d.Fallback?
    ensures forall t, p :: FirstPlayerPair(data.teams, n, t, p) ==>
              d == PlayerCard(data.teams[t].0, data.teams[t].1[p])
    ensures NoPlayer(data.teams, n) ==>
              forall t :: FirstHit(TeamNames(data.teams), n, t) ==>
                d == TeamCard(data.teams[t].0, data.teams[t].1)
    ensures NoPlayer(data.teams, n) && NoHit(TeamNames(data.teams), n) ==> d == Fallback
  {
    match FirstPlayerHit(data.teams, n)
    case Some(hit) =>
      assert forall t, p :: FirstPlayerPair(data.teams, n, t, p) ==> t == hit.0 && p == hit.1 by {
        forall t, p | FirstPlayerPair(data.teams, n, t, p) ensures t == hit.0 && p == hit.1 {
          FirstPlayerPairUnique(data.teams, n, t, p, hit.0, hit.1);
        }
      }
      PlayerCard(data.teams[hit.0].0, data.teams[hit.0].1[hit.1])
    case None =>
      var names := TeamNames(data.teams);
      match FirstMentioned(names, n)
      case Some(t) =>
        assert forall t' :: FirstHit(names, n, t') ==> t' == t by {
          forall t' | FirstHit(names, n, t') ensures t' == t {
            FirstHitUnique(names, n, t, t');
          }
        }
        TeamCard(data.teams[t].0, data.teams[t].1)
      case None =>
        Fallback
  }

  /** The keyword rules, in order, each asked only if the earlier ones did
      not apply. */
  function Decide(msg: string, data: Knowledge): (d: Decision)
    ensures d.Greeting? <==> Normalize(msg) in Greetings
    ensures Contains(Normalize(msg), "about") ==> d == AboutText
    ensures d.AboutText? ==> Contains(Normalize(msg), "about")
    ensures d.PurposeList? <==>
              Normalize(msg) !in Greetings && !Contains(Normalize(msg), "about") &&
              Contains(Normalize(msg), "purpose")
    ensures d.FormatRules? <==>
              Normalize(msg) !in Greetings && !Contains(Normalize(msg), "about") &&
              !Contains(Normalize(msg), "purpose") &&
              (Contains(Normalize(msg), "rule") || Contains(Normalize(msg), "format"))
    ensures d.PointsRules? <==>
              Normalize(msg) !in Greetings && !Contains(Normalize(msg), "about") &&
              !Contains(Normalize(msg), "purpose") && !Contains(Normalize(msg), "rule") &&
              !Contains(Normalize(msg), "format") && Contains(Normalize(msg), "point")
  {
    var n := Normalize(msg);
    if n in Greetings then
      GreetingsAreNotAbout();
      Greeting
    else if Contains(n, "about") then AboutText
    else if Contains(n, "purpose") then PurposeList
    else if Contains(n, "rule") || Contains(n, "format") then FormatRules
    else if Contains(n, "point") then PointsRules
    else
      match DayRule(n, data)
      case Some(d) => d
      case None => NameLookup(n, data)
  }

  /** No greeting word contains "about". */
  lemma GreetingsAreNotAbout()
    ensures forall g :: g in Greetings ==> !Contains(g, "about")
  {
    forall g | g in Greetings ensures !Contains(g, "about") {
      TooLongToContain(g, "about");
    }
  }

  /** A pattern at least as long as the text occurs in it only if the two
      are equal. */
  lemma TooLongToContain(text: string, pat: string)
    requires |pat| >= |text| && pat != text
    ensures !Contains(text, pat)
  {
    ContainsIffOccurs(text, pat);
    assert forall i | 0 <= i <= |text| :: !MatchAt(text, pat, i) by {
      forall i | 0 <= i <= |text| ensures !MatchAt(text, pat, i) {
        if i == 0 {
          assert text[i..] == text;
        } else {
          assert |text[i..]| < |pat|;
        }
      }
    }
  }

  /** The text of each rule's reply. Only the non-list day value fails, with
      TypeError; every other decision renders as text. */
  function Render(d: Decision, data: Knowledge): (r: Result<string>)
    ensures r.Err? <==> d.NotIterable?
    ensures r.Err? ==> r.fault == TypeError
    ensures d.PurposeList? ==> "Purpose:\n" <= r.value
    ensures d.DayFixtures? ==> r.value == Join("\n", FixtureLines(d.fixtures))
  {
    match d
    case Greeting => Ok(GreetingMenu)
    case AboutText => Ok(data.about.description)
    case PurposeList => Ok("Purpose:\n" + Join("\n", Formatter.BulletLines(data.about.purpose)))
    case FormatRules =>
      var f := data.about.format;
      Ok("Format: " + f.kind + "\nLeague: " + f.leagueOvers + " overs\nFinal: " + f.finalOvers + " overs")
    case PointsRules =>
      var p := data.about.points;
      Ok("Points:\nWin \U{2013} " + p.win + "\nLoss \U{2013} " + p.loss + "\nTie \U{2013} " + p.tie)
    case DayFixtures(fs) => Ok(Join("\n", FixtureLines(fs)))
    case PlayerCard(team, player) =>
      Ok("Player: " + player + "\nTeam: " + team + "\n\nMatches:\n" +
         Join("\n", FixtureLines(TeamFixtures(team, data.schedule))))
    case TeamCard(team, players) =>
      Ok(team + " Team\n\nPlayers:\n" + Join("\n", Formatter.BulletLines(players)) +
         "\n\nMatches:\n" + Join("\n", FixtureLines(TeamFixtures(team, data.schedule))))
    case Fallback => Ok(NotUnderstood)
    case NotIterable => Err(TypeError)
  }

  /** `process_message(msg)` against the knowledge record `data`. */
  function ProcessMessage(msg: string, data: Knowledge): (r: Result<string>)
    ensures Normalize(msg) in Greetings ==> r == Ok(GreetingMenu)
    ensures Contains(Normalize(msg), "about") ==> r == Ok(data.about.description)
  {
    Render(Decide(msg, data), data)
  }

  // ---------------------------------------------------------------------------
  // Properties of the later rules
  // ---------------------------------------------------------------------------

  /** None of the five keyword rules applies to the normalized message. */
  predicate NoKeyword(n: string) {
    && n !in Greetings
    && !Contains(n, "about")
    && !Contains(n, "purpose")
    && !Contains(n, "rule")
    && !Contains(n, "format")
    && !Contains(n, "point")
  }

  /** Past the keyword rules, the schedule rule answers if it can, and the
      name searches otherwise. */
  lemma LateRules(msg: string, data: Knowledge)
    requires NoKeyword(Normalize(msg))
    ensures Decide(msg, data) ==
              if DayRule(Normalize(msg), data).Some? then DayRule(Normalize(msg), data).value
              else NameLookup(Normalize(msg), data)
  {
  }

  /** A `day<d>` match whose schedule value is missing, an empty list or a
      false value does not answer: the player and team searches do. */
  lemma DayFallsThrough(msg: string, data: Knowledge, c: char)
    requires NoKeyword(Normalize(msg))
    requires ScanDay(Normalize(msg)) == Some(c)
    requires var v := Get(data.schedule, "day" + [c]);
             v.None? || v == Some(Fixtures([])) || v == Some(Scalar(false))
    ensures Decide(msg, data) == NameLookup(Normalize(msg), data)
  {
    LateRules(msg, data);
  }

  /** With a non-empty fixture list for the day, the reply is one line per
      fixture in schedule order; when no field holds a newline, splitting
      the reply on newlines gives back exactly those lines. */
  lemma DayReply(msg: string, data: Knowledge, c: char, fs: seq<Fixture>)
    requires NoKeyword(Normalize(msg))
    requires ScanDay(Normalize(msg)) == Some(c)
    requires Get(data.schedule, "day" + [c]) == Some(Fixtures(fs)) && |fs| > 0
    ensures ProcessMessage(msg, data) == Ok(Join("\n", FixtureLines(fs)))
  {
    LateRules(msg, data);
    assert DayRule(Normalize(msg), data) == Some(DayFixtures(fs));
  }

  /** When no fixture field holds a newline, splitting a day reply on
      newlines gives back exactly one line per fixture, in order. */
  lemma DayReplyLines(fs: seq<Fixture>)
    requires |fs| > 0
    requires forall i :: 0 <= i < |fs| ==> '\n' !in FixtureLine(fs[i])
    ensures Split(Join("\n", FixtureLines(fs)), "\n") == FixtureLines(fs)
  {
    var lines := FixtureLines(fs);
    assert forall k :: 0 <= k < |lines| ==> "\n"[0] !in lines[k];
    SplitJoin(lines, "\n");
  }

  /** A truthy day value that is not a list raises TypeError. */
  lemma DayScalarFails(msg: string, data: Knowledge, c: char)
    requires NoKeyword(Normalize(msg))
    requires ScanDay(Normalize(msg)) == Some(c)
    requires Get(data.schedule, "day" + [c]) == Some(Scalar(true))
    ensures ProcessMessage(msg, data) == Err(TypeError)
  {
    OnlyDayScalarFails(msg, data);
    RenderFails(Decide(msg, data), data);
  }

  /** A player name wins over any team name: past the keyword and day
      rules, the first team/player pair whose player the message names is
      reported, with that team's matches. */
  lemma PlayerWins(msg: string, data: Knowledge, t: int, p: int)
    requires NoKeyword(Normalize(msg)) && DayRule(Normalize(msg), data).None?
    requires FirstPlayerPair(data.teams, Normalize(msg), t, p)
    ensures ProcessMessage(msg, data) ==
              Ok("Player: " + data.teams[t].1[p] + "\nTeam: " + data.teams[t].0 + "\n\nMatches:\n" +
                 Join("\n", FixtureLines(TeamFixtures(data.teams[t].0, data.schedule))))
  {  LateRules(msg, data);
  }

  /** With no player named, the first team named gets its roster and matches. */
  lemma TeamReply(msg: string, data: Knowledge, t: int)
    requires NoKeyword(Normalize(msg)) && DayRule(Normalize(msg), data).None?
    requires NoPlayer(data.teams, Normalize(msg))
    requires FirstHit(TeamNames(data.teams), Normalize(msg), t)
    ensures ProcessMessage(msg, data) ==
              Ok(data.teams[t].0 + " Team\n\nPlayers:\n" + Join("\n", Formatter.BulletLines(data.teams[t].1)) +
                 "\n\nMatches:\n" + Join("\n", FixtureLines(TeamFixtures(data.teams[t].0, data.schedule))))
  {
  }

  /** A message that no rule answers gets the fixed apology. */
  lemma NothingMatches(msg: string, data: Knowledge)
    requires NoKeyword(Normalize(msg)) && DayRule(Normalize(msg), data).None?
    requires NoPlayer(data.teams, Normalize(msg))
    requires NoHit(TeamNames(data.teams), Normalize(msg))
    ensures ProcessMessage(msg, data) == Ok(NotUnderstood)
  {  LateRules(msg, data);
  }

  /** When no purpose holds a newline, the purpose reply's lines are the
      heading and one bulleted line per purpose, in order. */
  lemma PurposeLines(data: Knowledge)
    requires forall i :: 0 <= i < |data.about.purpose| ==> '\n' !in data.about.purpose[i]
    ensures data.about.purpose != [] ==>
              Split(Render(PurposeList, data).value, "\n") ==
                ["Purpose:"] + Formatter.BulletLines(data.about.purpose)
    ensures data.about.purpose == [] ==>
              Split(Render(PurposeList, data).value, "\n") == ["Purpose:", ""]
  {
    var items := Formatter.BulletLines(data.about.purpose);
    if items != [] {
      var parts := ["Purpose:"] + items;
      JoinCons("\n", "Purpose:", items);
      assert Render(PurposeList, data).value == Join("\n", parts);
      assert '\n' !in "Purpose:" && '\n' !in "\U{2022} ";
      forall k | 0 <= k < |parts| ensures "\n"[0] !in parts[k] {
        if k > 0 {
          assert parts[k] == "\U{2022} " + data.about.purpose[k - 1];
        }
      }
      SplitJoin(parts, "\n");
    } else {
      assert Render(PurposeList, data).value == Join("\n", ["Purpose:", ""]);
      assert '\n' !in "Purpose:";
      SplitJoin(["Purpose:", ""], "\n");
    }
  }

  /** The router raises only in one place: past the keyword rules, the
      first `day<d>` of the message names a truthy value that is not a list. */
  lemma OnlyDayScalarFails(msg: string, data: Knowledge)
    ensures ProcessMessage(msg, data).Err? <==>
              NoKeyword(Normalize(msg)) && ScanDay(Normalize(msg)).Some? &&
              Get(data.schedule, "day" + [ScanDay(Normalize(msg)).value]) == Some(Scalar(true))
  {
    RenderFails(Decide(msg, data), data);
    DecideFails(msg, data);
    DayRuleFails(Normalize(msg), data);
  }

  /** Only the failure decision renders as an error. */
  lemma RenderFails(d: Decision, data: Knowledge)
    ensures Render(d, data).Err? <==> d.NotIterable?
    ensures Render(d, data).Err? ==> Render(d, data) == Err(TypeError)
  {
  }

  /** The router decides to fail only through the schedule rule. */
  lemma DecideFails(msg: string, data: Knowledge)
    ensures Decide(msg, data).NotIterable? <==>
              NoKeyword(Normalize(msg)) && DayRule(Normalize(msg), data).Some? &&
              DayRule(Normalize(msg), data).value.NotIterable?
  {
  }

  /** The schedule rule fails exactly on a truthy value that is not a list. */
  lemma DayRuleFails(n: string, data: Knowledge)
    ensures DayRule(n, data).Some? && DayRule(n, data).value.NotIterable? <==>
              ScanDay(n).Some? && Get(data.schedule, "day" + [ScanDay(n).value]) == Some(Scalar(true))
  {
  }
}
