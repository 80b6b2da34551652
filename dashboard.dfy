/** The teacher's dashboard: the registrations are loaded from the sheet,
    counted per value of the Equipa column, and every team with more than
    two registrations is flagged. */
module Dashboard {
  import opened Scan
  import opened App

  /** The columns of the table built when the sheet holds no records. */
  const DefaultColumns: seq<string> := ["Nome", "Apelido", "Email", "Equipa", "DataHora"]

  /** The most registrations a team may have. */
  const MaxTeamSize: nat := 2

  /** The registrations as loaded for display: the header and the rows. */
  datatype Table = Table(columns: seq<string>, rows: seq<Row>)

  /** One line of the count table: a value of Equipa and how many rows carry
      it ("Número de alunos"). */
  datatype TeamCount = TeamCount(team: string, size: nat)

  /** What the dashboard shows below its title: either the "no
      registrations yet" message, or the count table, the over-limit lines
      and whether the over-limit error is raised. */
  datatype View = NoRegistrations | Report(counts: seq<TeamCount>, overLimit: seq<TeamCount>, error: bool)

  /** `carregar_registos`: the sheet's records under its header, or, when
      there are none, an empty table with the five default columns. */
  function Load(header: seq<string>, records: seq<Row>): (t: Table)
    ensures t.rows == records
    ensures records == [] ==> t.columns == DefaultColumns
    ensures records != [] ==> t.columns == header
  {
    if records == [] then Table(DefaultColumns, []) else Table(header, records)
  }

  // ---------------------------------------------------------------------
  // Counting per team

  /** The Equipa column. */
  function Teams(rows: seq<Row>): (ts: seq<string>)
    ensures |ts| == |rows|
    ensures forall i :: 0 <= i < |rows| ==> ts[i] == rows[i].team
  {
    if rows == [] then [] else [rows[0].team] + Teams(rows[1..])
  }

  /** How many rows have Equipa exactly `team` (no trimming, no case
      folding): the number of times `team` occurs in the Equipa column. */
  function TeamSize(rows: seq<Row>, team: string): (n: nat)
    ensures n == multiset(Teams(rows))[team]
  {
    if rows == [] then 0
    else (if rows[0].team == team then 1 else 0) + TeamSize(rows[1..], team)
  }

  /** The distinct values of the Equipa column, each once. */
  function DistinctTeams(rows: seq<Row>): (ks: seq<string>)
    ensures forall i, j :: 0 <= i < j < |ks| ==> ks[i] != ks[j]
    ensures forall t :: t in ks <==> t in Teams(rows)
  {
    if rows == [] then []
    else
      var ks := DistinctTeams(rows[1..]);
      assert Teams(rows) == [rows[0].team] + Teams(rows[1..]);
      if rows[0].team in ks then ks else [rows[0].team] + ks
  }

  /** One count line per team in `ks`. */
  function CountsOf(rows: seq<Row>, ks: seq<string>): (table: seq<TeamCount>)
    ensures |table| == |ks|
    ensures forall i :: 0 <= i < |ks| ==> table[i] == TeamCount(ks[i], TeamSize(rows, ks[i]))
  {
    if ks == [] then [] else [TeamCount(ks[0], TeamSize(rows, ks[0]))] + CountsOf(rows, ks[1..])
  }

  /** The count lines are those of the listed teams, each with its size. */
  lemma CountsOfMembers(rows: seq<Row>, ks: seq<string>)
    ensures forall t :: t in ks ==> TeamCount(t, TeamSize(rows, t)) in CountsOf(rows, ks)
    ensures forall e :: e in CountsOf(rows, ks) ==> e.team in ks && e.size == TeamSize(rows, e.team)
  {
    var table := CountsOf(rows, ks);
    forall t | t in ks
      ensures TeamCount(t, TeamSize(rows, t)) in table
    {
      var i :| 0 <= i < |ks| && ks[i] == t;
      assert table[i] == TeamCount(t, TeamSize(rows, t));
    }
    forall e | e in table
      ensures e.team in ks && e.size == TeamSize(rows, e.team)
    {
      var i :| 0 <= i < |table| && table[i] == e;
      assert e.team == ks[i];
    }
  }

  /** `df.groupby("Equipa").size()`: one line per distinct Equipa value,
      with the number of rows that carry exactly that value. */
  function CountTable(rows: seq<Row>): (table: seq<TeamCount>)
    ensures forall i, j :: 0 <= i < j < |table| ==> table[i].team != table[j].team
    ensures forall i :: 0 <= i < |table| ==> table[i].team in Teams(rows)
    ensures forall t :: t in Teams(rows) ==> TeamCount(t, TeamSize(rows, t)) in table
    ensures forall e :: e in table ==> e.size == TeamSize(rows, e.team) > 0
  {
    var ks := DistinctTeams(rows);
    CountsOfMembers(rows, ks);
    CountsOf(rows, ks)
  }

  /** The sum of the sizes in a count table. */
  function Total(table: seq<TeamCount>): nat {
    if table == [] then 0 else table[0].size + Total(table[1..])
  }

  /** One more row at the front adds one to the size of its own team. */
  lemma SizeCons(r: Row, rest: seq<Row>, team: string)
    ensures TeamSize([r] + rest, team) == TeamSize(rest, team) + (if r.team == team then 1 else 0)
  {
    assert ([r] + rest)[1..] == rest;
  }

  /** The total of a count table is the size of its first team plus the
      total of the others. */
  lemma TotalSplit(rows: seq<Row>, ks: seq<string>)
    requires ks != []
    ensures Total(CountsOf(rows, ks)) == TeamSize(rows, ks[0]) + Total(CountsOf(rows, ks[1..]))
  {
    assert CountsOf(rows, ks)[1..] == CountsOf(rows, ks[1..]);
  }

  /** One more row adds one to the count of its team, if that team is
      listed, and nothing otherwise. */
  lemma {:induction false} TotalCons(r: Row, rest: seq<Row>, ks: seq<string>)
    requires forall i, j :: 0 <= i < j < |ks| ==> ks[i] != ks[j]
    ensures Total(CountsOf([r] + rest, ks)) == Total(CountsOf(rest, ks)) + (if r.team in ks then 1 else 0)
  {
    if ks != [] {
      var tail := ks[1..];
      TotalSplit([r] + rest, ks);
      TotalSplit(rest, ks);
      SizeCons(r, rest, ks[0]);
      TotalCons(r, rest, tail);
      assert ks[0] !in tail;
      assert r.team in ks <==> r.team == ks[0] || r.team in tail;
    }
  }

  /** The counts of a list of distinct teams that covers every row add up to
      the number of rows. */
  lemma {:induction false} TotalCovers(rows: seq<Row>, ks: seq<string>)
    requires forall i, j :: 0 <= i < j < |ks| ==> ks[i] != ks[j]
    requires forall i :: 0 <= i < |rows| ==> rows[i].team in ks
    ensures Total(CountsOf(rows, ks)) == |rows|
  {
    if rows == [] {
      TotalEmpty(ks);
    } else {
      var rest := rows[1..];
      assert rows == [rows[0]] + rest;
      TotalCovers(rest, ks);
      TotalCons(rows[0], rest, ks);
    }
  }

  /** With no rows every count is zero. */
  lemma {:induction false} TotalEmpty(ks: seq<string>)
    ensures Total(CountsOf([], ks)) == 0
  {
    if ks != [] {
      assert CountsOf([], ks)[1..] == CountsOf([], ks[1..]);
      TotalEmpty(ks[1..]);
    }
  }

  /** Every row is counted in exactly one line of the count table: the
      counts add up to the number of rows. */
  lemma CountsSumToRows(rows: seq<Row>)
    ensures Total(CountTable(rows)) == |rows|
  {
    var ks := DistinctTeams(rows);
    assert forall i :: 0 <= i < |rows| ==> Teams(rows)[i] == rows[i].team;
    TotalCovers(rows, ks);
  }

  // ---------------------------------------------------------------------
  // The over-limit check

  /** `count_equipa[count_equipa["Número de alunos"] > 2]`: the lines of
      the count table above the limit, in order. */
  function OverLimit(table: seq<TeamCount>): (r: seq<TeamCount>)
    ensures forall e :: e in r <==> e in table && e.size > MaxTeamSize
  {
    if table == [] then []
    else if table[0].size > MaxTeamSize then [table[0]] + OverLimit(table[1..])
    else OverLimit(table[1..])
  }

  /** A team is listed as over the limit exactly when more than two rows
      carry it, and then with its count. */
  lemma OverLimitExactly(rows: seq<Row>, team: string)
    ensures (TeamCount(team, TeamSize(rows, team)) in OverLimit(CountTable(rows)))
              == (TeamSize(rows, team) > MaxTeamSize)
    ensures forall e :: e in OverLimit(CountTable(rows)) ==> e.size == TeamSize(rows, e.team) > MaxTeamSize
  {
    if TeamSize(rows, team) > 0 {
      assert team in multiset(Teams(rows));
    }
  }

  /** The error is shown exactly when some row's team has more than two
      rows. */
  lemma ErrorShownExactly(rows: seq<Row>)
    ensures OverLimit(CountTable(rows)) != [] <==>
              exists i :: 0 <= i < |rows| && TeamSize(rows, rows[i].team) > MaxTeamSize
  {
    var table := CountTable(rows);
    if OverLimit(table) != [] {
      var e := OverLimit(table)[0];
      assert e in OverLimit(table);
      assert e.team in Teams(rows);
      var i :| 0 <= i < |rows| && Teams(rows)[i] == e.team;
    }
    if exists i :: 0 <= i < |rows| && TeamSize(rows, rows[i].team) > MaxTeamSize {
      var i :| 0 <= i < |rows| && TeamSize(rows, rows[i].team) > MaxTeamSize;
      assert Teams(rows)[i] == rows[i].team;
      OverLimitExactly(rows, rows[i].team);
    }
  }

  /** The dashboard: with no registrations only a message is shown and
      nothing is counted; otherwise the count table, the lines over the
      limit, and the error exactly when some team has more than two rows. */
  function Render(t: Table): (v: View)
    ensures v == NoRegistrations <==> t.rows == []
    ensures v.Report? ==> v.counts == CountTable(t.rows) && v.overLimit == OverLimit(v.counts)
    ensures v.Report? ==>
              (v.error <==> exists i :: 0 <= i < |t.rows| && TeamSize(t.rows, t.rows[i].team) > MaxTeamSize)
  {
    if t.rows == [] then NoRegistrations
    else
      var counts := CountTable(t.rows);
      var over := OverLimit(counts);
      ErrorShownExactly(t.rows);
      Report(counts, over, over != [])
  }

  // ---------------------------------------------------------------------
  // Open-Day-only registrations and the placeholder team

  /** Three registrations for the Open Day only all carry the placeholder
      team "—", which the dashboard counts as a team of three and flags. */
  lemma PlaceholderTeamFlagged(header: seq<string>, a: Row, b: Row, c: Row)
    requires ModeOf(a) == ModeOf(b) == ModeOf(c) == OpenDayOnly
    requires a.team == b.team == c.team == NoTeam
    ensures Render(Load(header, [a, b, c])).error
  {
    var rows := [a, b, c];
    assert TeamSize(rows, NoTeam) == 3 by {
      assert rows[1..] == [b, c] && rows[1..][1..] == [c];
    }
  }

  /** Three registrations written by the enrollment page for the Open Day
      only raise the dashboard's over-limit error. */
  lemma OpenDayOnlyRegistrationsFlagged(header: seq<string>, name: string, surname: string,
                                         emails: seq<string>, team: string, ts: string)
    requires |emails| == 3
    ensures Render(Load(header, seq(3, i requires 0 <= i < 3 =>
                RegistrationRow(name, surname, emails[i], OpenDayOnly, team, ts)))).error
  {
    var rows := seq(3, i requires 0 <= i < 3 => RegistrationRow(name, surname, emails[i], OpenDayOnly, team, ts));
    assert rows == [rows[0], rows[1], rows[2]];
    PlaceholderTeamFlagged(header, rows[0], rows[1], rows[2]);
  }

  /** The registrations that take part in the challenge, read the way the
      enrollment page reads the Participa Challenge column. */
  function ChallengeRows(rows: seq<Row>): (r: seq<Row>)
    ensures forall i :: 0 <= i < |r| ==> ModeOf(r[i]) == WithChallenge && r[i] in rows
    ensures forall i :: 0 <= i < |rows| && ModeOf(rows[i]) == WithChallenge ==> rows[i] in r
    ensures forall x :: multiset(r)[x] == if ModeOf(x) == WithChallenge then multiset(rows)[x] else 0
  {
    WithoutMembers(rows, r => ModeOf(r) == OpenDayOnly);
    WithoutMultiset(rows, r => ModeOf(r) == OpenDayOnly);
    Without(rows, r => ModeOf(r) == OpenDayOnly)
  }

  /** The dashboard counting challenge registrations only: the team limit
      is checked among the rows that take part in the challenge. */
  function RenderChallengeTeams(t: Table): (v: View)
    ensures v == NoRegistrations <==> t.rows == []
    ensures v.Report? ==> v.counts == CountTable(ChallengeRows(t.rows))
    ensures v.Report? ==>
              (v.error <==> exists i :: 0 <= i < |ChallengeRows(t.rows)|
                                       && TeamSize(ChallengeRows(t.rows), ChallengeRows(t.rows)[i].team) > MaxTeamSize)
  {
    if t.rows == [] then NoRegistrations
    else
      var rows := ChallengeRows(t.rows);
      var counts := CountTable(rows);
      var over := OverLimit(counts);
      ErrorShownExactly(rows);
      Report(counts, over, over != [])
  }

  /** Registrations for the Open Day only never change what the corrected
      dashboard counts. */
  lemma OpenDayOnlyIgnored(rows: seq<Row>, r: Row)
    requires ModeOf(r) == OpenDayOnly
    ensures ChallengeRows(rows + [r]) == ChallengeRows(rows)
  {
    WithoutAppend(rows, r, x => ModeOf(x) == OpenDayOnly);
  }

  /** With the challenge rows only, the three Open-Day-only registrations
      raise no error. */
  lemma OpenDayOnlyNotFlagged(header: seq<string>, a: Row, b: Row, c: Row)
    requires ModeOf(a) == ModeOf(b) == ModeOf(c) == OpenDayOnly
    ensures !RenderChallengeTeams(Load(header, [a, b, c])).error
  {
    OpenDayOnlyIgnored([a], b);
    OpenDayOnlyIgnored([a, b], c);
    assert [a] + [b] == [a, b] && [a, b] + [c] == [a, b, c];
    assert [a][1..] == [];
  }
}
