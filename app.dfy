/** The "OpenDay Enroll" section of the registration page: an email is
    verified against the registration sheet, then either a new registration
    is confirmed or an existing one is switched to the other participation
    mode. The sheet is a sequence of rows; the two session fields of the page
    are fields of `EnrollPage`. */
module App {
  import opened Text
  import opened Scan

  /** One row of the registration sheet. The columns are Nome, Apelido,
      Email, Participa Challenge, Equipa and DataHora; a column the sheet
      lacks reads as "". */
  datatype Row = Row(name: string, surname: string, email: string,
                     challenge: string, team: string, timestamp: string)

  /** The two options of the mode radio button: "Attend Open Day only" and
      "Attend Open Day + Participate in the Challenge". */
  datatype Mode = OpenDayOnly | WithChallenge

  /** The values written to the Participa Challenge and Equipa columns. */
  const Yes: string := "Sim"
  const No: string := "Não"
  const NoTeam: string := "—"

  /** Why a button press was refused (the warning shown before `st.stop()`). */
  datatype Reason = EmailRequired | NameAndSurnameRequired | TeamRequired

  datatype Outcome = Accepted | Rejected(reason: Reason)

  // ---------------------------------------------------------------------
  // Lookup by email

  /** Emails are compared trimmed and lower-cased. */
  function EmailKey(s: string): string {
    Lower(Strip(s))
  }

  /** The key a row is filed under: its email, trimmed and lower-cased. It
      is the key function that `Unique` hands to `Distinct`. */
  function RowKey(r: Row): string {
    EmailKey(r.email)
  }

  /** Row `r` is registered under `email`: the comparison as contracts
      state it. */
  predicate SameEmail(r: Row, email: string) {
    RowKey(r) == EmailKey(email)
  }

  /** The same comparison as a test for the generic scans, taking the key
      rather than the email, so emails with the same key give one test. */
  function KeyIs(key: string): Row -> bool {
    (r: Row) => RowKey(r) == key
  }

  /** The test `Lookup` and `DeleteRegistration` scan with: the rows
      registered under `email`. */
  function RegisteredAs(email: string): Row -> bool {
    KeyIs(EmailKey(email))
  }

  /** The registration found for `email`: the first matching row, or None. */
  function Lookup(rows: seq<Row>, email: string): (r: Option<Row>)
    ensures r.None? <==> forall i :: 0 <= i < |rows| ==> !SameEmail(rows[i], email)
    ensures r.Some? ==> exists i :: 0 <= i < |rows| && rows[i] == r.value && SameEmail(rows[i], email)
                                    && forall j :: 0 <= j < i ==> !SameEmail(rows[j], email)
  {
    match FirstWhere(rows, RegisteredAs(email))
    case None => None
    case Some(k) => Some(rows[k])
  }

  /** At most one row per (trimmed, lower-cased) email. */
  ghost predicate Unique(rows: seq<Row>) {
    Distinct(rows, RowKey)
  }

  /** Deleting the registration of `email` from the sheet: the first row
      registered under that email is removed, the others keep their order. */
  function DeleteRegistration(rows: seq<Row>, email: string): (r: seq<Row>)
    ensures (forall i :: 0 <= i < |rows| ==> !SameEmail(rows[i], email)) ==> r == rows
    ensures (exists i :: 0 <= i < |rows| && SameEmail(rows[i], email)) ==> |r| == |rows| - 1
    ensures forall x :: multiset(r)[x] <= multiset(rows)[x]
  {
    RemoveFirstMultiset(rows, RegisteredAs(email));
    RemoveFirstWhere(rows, RegisteredAs(email))
  }

  /** The row that deletion removes is the row that lookup finds, and
      nothing else is removed. */
  lemma DeleteRemovesLookup(rows: seq<Row>, email: string)
    ensures Lookup(rows, email).None? ==> DeleteRegistration(rows, email) == rows
    ensures Lookup(rows, email).Some? ==>
              multiset(DeleteRegistration(rows, email)) + multiset{Lookup(rows, email).value} == multiset(rows)
  {
    RemoveFirstMultiset(rows, RegisteredAs(email));
  }

  /** When every email has at most one row, deleting the first match deletes
      every match. */
  lemma DeleteUnique(rows: seq<Row>, email: string)
    requires Unique(rows)
    ensures DeleteRegistration(rows, email) == Without(rows, RegisteredAs(email))
  {
    var p := RegisteredAs(email);
    forall i, j | 0 <= i < j < |rows| && p(rows[i])
      ensures !p(rows[j])
    {
      assert RowKey(rows[i]) != RowKey(rows[j]);
    }
    RemoveFirstAtMostOne(rows, p);
  }

  // ---------------------------------------------------------------------
  // Modes and rows

  /** The mode a stored row is read as: with the challenge exactly when its
      Participa Challenge value, trimmed and lower-cased, is "sim". */
  function ModeOf(r: Row): (m: Mode)
    ensures r.challenge == Yes ==> m == WithChallenge
    ensures r.challenge == No ==> m == OpenDayOnly
  {
    StripNoop(Yes);
    StripNoop(No);
    assert Lower(Yes) == "sim";
    assert Lower(No)[1] != "sim"[1];
    if Lower(Strip(r.challenge)) == "sim" then WithChallenge else OpenDayOnly
  }

  /** The Participa Challenge value is read without regard to letter case or
      to whitespace around it: values that agree up to case read alike, with
      or without padding. */
  lemma ModeIgnoresCaseAndPadding(r: Row, pre: string, value: string, post: string, other: string)
    requires Blank(pre) && Blank(post)
    requires Lower(value) == Lower(other)
    ensures ModeOf(r.(challenge := pre + value + post)) == ModeOf(r.(challenge := other))
  {
    StripIgnoresPadding(pre, value, post);
    StripLower(value);
    StripLower(other);
  }

  /** " SIM " in the sheet reads as a challenge registration, like "Sim". */
  lemma PaddedCapitalYesReadsAsYes(r: Row)
    ensures ModeOf(r.(challenge := " SIM ")) == WithChallenge
  {
    assert " SIM " == " " + "SIM" + " ";
    assert Lower("SIM") == Lower(Yes);
    ModeIgnoresCaseAndPadding(r, " ", "SIM", " ", Yes);
  }

  /** The mode an existing registration is offered to switch to. */
  function Other(m: Mode): (o: Mode)
    ensures o != m
  {
    if m == WithChallenge then OpenDayOnly else WithChallenge
  }

  /** The team name as typed, trimmed and title-cased; "" stays "". */
  function NormalizeTeam(input: string): (t: string)
    ensures t == "" <==> Blank(input)
    ensures t == Strip(t)
    ensures |t| == |Strip(input)|
  {
    if input == "" then "" else
      var s := Strip(input);
      var t := Title(s);
      StripEmpty(input);
      StripNoop(t);
      t
  }

  /** Team names that differ only in the case of their letters are
      normalised alike ("rocket", "ROCKET" and "Rocket" are one team). */
  lemma NormalizeTeamIgnoresCase(input: string)
    ensures NormalizeTeam(Lower(input)) == NormalizeTeam(input)
  {
    if input != "" {
      StripLower(input);
      TitleIgnoresCase(Strip(input));
    }
  }

  /** A normalised team name is its own normalisation. */
  lemma NormalizeTeamIdempotent(input: string)
    ensures NormalizeTeam(NormalizeTeam(input)) == NormalizeTeam(input)
  {
    if NormalizeTeam(input) != "" {
      TitleIdempotent(Strip(input));
    }
  }

  /** The row written for a registration in mode `mode`; `team` is only
      used in challenge mode. */
  function RegistrationRow(name: string, surname: string, email: string, mode: Mode,
                           team: string, timestamp: string): (r: Row)
    ensures r.name == name && r.surname == surname && r.email == email && r.timestamp == timestamp
    ensures ModeOf(r) == mode
    ensures r.challenge == (if mode == WithChallenge then Yes else No)
    ensures mode == OpenDayOnly ==> r.team == NoTeam
    ensures mode == WithChallenge ==> r.team == team
  {
    Row(name, surname, email, if mode == WithChallenge then Yes else No,
        if mode == WithChallenge then team else NoTeam, timestamp)
  }

  /** The replacement row written when `existing` switches mode: same name
      and surname, the other mode, and the team typed for the update. */
  function UpdatedRow(existing: Row, email: string, teamInput: string, timestamp: string): (r: Row)
    ensures r.name == existing.name && r.surname == existing.surname && r.email == email
    ensures r.timestamp == timestamp
    ensures ModeOf(r) == Other(ModeOf(existing))
    ensures r.challenge == (if ModeOf(r) == WithChallenge then Yes else No)
    ensures ModeOf(r) == OpenDayOnly ==> r.team == NoTeam
    ensures ModeOf(r) == WithChallenge ==> r.team == NormalizeTeam(teamInput)
  {
    RegistrationRow(existing.name, existing.surname, email, Other(ModeOf(existing)),
                    NormalizeTeam(teamInput), timestamp)
  }

  // ---------------------------------------------------------------------
  // Validation

  /** "Confirm enrollment": name and surname must be non-empty, and in
      challenge mode the team must contain a non-whitespace character. */
  function CheckEnrollment(name: string, surname: string, mode: Mode, teamInput: string): (o: Outcome)
    ensures o == Accepted <==> name != "" && surname != "" && (mode == WithChallenge ==> !Blank(teamInput))
    ensures name == "" || surname == "" ==> o == Rejected(NameAndSurnameRequired)
    ensures name != "" && surname != "" && o != Accepted ==> o == Rejected(TeamRequired)
    ensures o != Rejected(EmailRequired)
  {
    if name == "" || surname == "" then Rejected(NameAndSurnameRequired)
    else if mode == WithChallenge && NormalizeTeam(teamInput) == "" then Rejected(TeamRequired)
    else Accepted
  }

  /** "Confirm update": switching into challenge mode needs a team with a
      non-whitespace character; switching out of it needs nothing. */
  function CheckUpdate(newMode: Mode, teamInput: string): (o: Outcome)
    ensures o == Accepted <==> (newMode == WithChallenge ==> !Blank(teamInput))
    ensures o != Accepted ==> o == Rejected(TeamRequired)
  {
    if newMode == WithChallenge && NormalizeTeam(teamInput) == "" then Rejected(TeamRequired)
    else Accepted
  }

  // ---------------------------------------------------------------------
  // Properties of the flows on the sheet

  /** Switching twice gives back the mode a registration started in. */
  lemma UpdateTwiceRestoresMode(existing: Row, email1: string, team1: string, ts1: string,
                                email2: string, team2: string, ts2: string)
    ensures ModeOf(UpdatedRow(UpdatedRow(existing, email1, team1, ts1), email2, team2, ts2)) == ModeOf(existing)
  {
  }

  /** Appending a row for an email no row is registered under keeps the
      sheet at one row per email, and a lookup of that email then finds the
      appended row. */
  lemma AppendFresh(rows: seq<Row>, row: Row)
    requires Unique(rows)
    requires forall i :: 0 <= i < |rows| ==> !SameEmail(rows[i], row.email)
    ensures Unique(rows + [row])
    ensures Lookup(rows + [row], row.email) == Some(row)
  {
    var rows' := rows + [row];
    assert forall i :: 0 <= i < |rows| ==> RowKey(rows[i]) != RowKey(row);
    AppendKeepsDistinct(rows, row, RowKey);
    assert forall i :: 0 <= i < |rows| ==> rows'[i] == rows[i];
    assert RegisteredAs(row.email)(rows'[|rows|]);
    assert FirstWhere(rows', RegisteredAs(row.email)) == Some(|rows|);
  }

  /** Deleting a registration keeps the sheet at one row per email. */
  lemma DeleteKeepsUnique(rows: seq<Row>, email: string)
    requires Unique(rows)
    ensures Unique(DeleteRegistration(rows, email))
  {
    RemoveFirstKeepsDistinct(rows, RegisteredAs(email), RowKey);
  }

  /** A new registration for an email that lookup did not find keeps the
      sheet at one row per email, and checking that email again finds the
      new row, so a second enrollment goes to the update form. It is
      `AppendFresh` with its precondition read off the lookup the page
      recorded. */
  lemma EnrollKeepsUnique(rows: seq<Row>, row: Row)
    requires Unique(rows)
    requires Lookup(rows, row.email) == None
    ensures Unique(rows + [row])
    ensures Lookup(rows + [row], row.email) == Some(row)
  {
    AppendFresh(rows, row);
  }

  /** A switch of mode on a sheet with one row per email removes every row
      of that email and leaves its replacement as the only one, which a
      second lookup finds; the other rows are kept. */
  lemma UpdateKeepsUnique(rows: seq<Row>, email: string, row: Row)
    requires Unique(rows)
    requires SameEmail(row, email)
    ensures DeleteRegistration(rows, email) == Without(rows, RegisteredAs(email))
    ensures Unique(DeleteRegistration(rows, email) + [row])
    ensures Lookup(DeleteRegistration(rows, email) + [row], email) == Some(row)
  {
    assert RegisteredAs(row.email) == RegisteredAs(email);
    DeleteUnique(rows, email);
    DeleteKeepsUnique(rows, email);
    var kept := DeleteRegistration(rows, email);
    assert forall i :: 0 <= i < |kept| ==> !RegisteredAs(email)(kept[i]);
    AppendFresh(kept, row);
  }

  // ---------------------------------------------------------------------
  // The page

  /** The enrollment section of the page: the registration sheet and the
      session fields `email_verificado` and `registro_existente`. */
  class EnrollPage {
    var rows: seq<Row>
    var emailVerified: bool
    var existing: Option<Row>

    constructor (sheet: seq<Row>)
      ensures rows == sheet && !emailVerified && existing == None
    {
      rows := sheet;
      emailVerified := false;
      existing := None;
    }

    /** `guardar_registo`: append one row to the sheet. */
    method Append(row: Row)
      modifies this
      ensures rows == old(rows) + [row]
      ensures emailVerified == old(emailVerified) && existing == old(existing)
    {
      rows := rows + [row];
    }

    /** `apagar_registo`: delete the registration of `email`. */
    method Delete(email: string)
      modifies this
      ensures rows == DeleteRegistration(old(rows), email)
      ensures emailVerified == old(emailVerified) && existing == old(existing)
    {
      rows := DeleteRegistration(rows, email);
    }

    /** "Verificar email": a blank email is refused and changes nothing;
        otherwise the page remembers that the email was checked and the
        registration found for it. */
    method Verify(email: string) returns (outcome: Outcome)
      modifies this
      ensures rows == old(rows)
      ensures outcome == if Blank(email) then Rejected(EmailRequired) else Accepted
      ensures Blank(email) ==> emailVerified == old(emailVerified) && existing == old(existing)
      ensures !Blank(email) ==> emailVerified && existing == Lookup(rows, email)
    {
      StripEmpty(email);
      if Strip(email) == "" {
        return Rejected(EmailRequired);
      }
      var found := Lookup(rows, email);
      emailVerified := true;
      existing := found;
      outcome := Accepted;
    }

    /** "Confirm enrollment", shown once an email was checked and not found:
        on valid input one row is appended and nothing else changes; on
        invalid input nothing changes. */
    method ConfirmEnroll(name: string, surname: string, email: string, mode: Mode,
                         teamInput: string, timestamp: string) returns (outcome: Outcome)
      requires emailVerified && existing == None
      modifies this
      ensures emailVerified && existing == None
      ensures outcome == CheckEnrollment(name, surname, mode, teamInput)
      ensures outcome == Accepted ==>
                rows == old(rows) + [RegistrationRow(name, surname, email, mode, NormalizeTeam(teamInput), timestamp)]
      ensures outcome != Accepted ==> rows == old(rows)
    {
      var team := if mode == WithChallenge then NormalizeTeam(teamInput) else "";
      if name == "" || surname == "" {
        return Rejected(NameAndSurnameRequired);
      }
      if mode == WithChallenge && team == "" {
        return Rejected(TeamRequired);
      }
      Append(RegistrationRow(name, surname, email, mode, team, timestamp));
      outcome := Accepted;
    }

    /** "Confirm update", shown once an email was checked and found: the
        registration switches to the other mode. The team is checked before
        the sheet is touched; then the row of `email` is deleted and a
        replacement with the old name and surname is appended. */
    method ConfirmUpdate(email: string, teamInput: string, timestamp: string) returns (outcome: Outcome)
      requires emailVerified && existing.Some?
      modifies this
      ensures emailVerified && existing == old(existing)
      ensures outcome == CheckUpdate(Other(ModeOf(existing.value)), teamInput)
      ensures rows == if outcome == Accepted
                      then DeleteRegistration(old(rows), email) + [UpdatedRow(existing.value, email, teamInput, timestamp)]
                      else old(rows)
    {
      var record := existing.value;
      var newMode := Other(ModeOf(record));
      var team := if newMode == WithChallenge then NormalizeTeam(teamInput) else "";
      if newMode == WithChallenge && team == "" {
        return Rejected(TeamRequired);
      }
      Delete(email);
      Append(RegistrationRow(record.name, record.surname, email, newMode, team, timestamp));
      outcome := Accepted;
    }
  }

  /** On a sheet holding one row, registered under `email`, lookup finds
      that row and deleting the registration empties the sheet. */
  lemma SingleRow(row: Row, email: string)
    requires row.email == email
    ensures Lookup([row], email) == Some(row)
    ensures DeleteRegistration([row], email) == []
  {
    assert RegisteredAs(email)(row);
    assert FirstWhere([row], RegisteredAs(email)) == Some(0);
  }

  /** A visitor registers for the Open Day only, checks the same email
      again and switches to the challenge with a team: one row remains, in
      challenge mode, with the normalised team and the time of the switch. */
  method EnrollThenSwitch(name: string, surname: string, email: string, team: string,
                          ts1: string, ts2: string) returns (sheet: seq<Row>)
    requires name != "" && surname != "" && !Blank(email) && !Blank(team)
    ensures sheet == [Row(name, surname, email, Yes, NormalizeTeam(team), ts2)]
  {
    var page := new EnrollPage([]);
    var outcome := page.Verify(email);
    outcome := page.ConfirmEnroll(name, surname, email, OpenDayOnly, "", ts1);
    var first := RegistrationRow(name, surname, email, OpenDayOnly, NormalizeTeam(""), ts1);
    assert page.rows == [first];
    SingleRow(first, email);
    outcome := page.Verify(email);
    var second := UpdatedRow(first, email, team, ts2);
    assert second == Row(name, surname, email, Yes, NormalizeTeam(team), ts2);
    outcome := page.ConfirmUpdate(email, team, ts2);
    sheet := page.rows;
  }

  /** Two rows with the same email are not one row per email. */
  lemma SameEmailNotUnique(a: Row, b: Row)
    requires a.email == b.email
    ensures !Unique([a, b])
  {
    assert RowKey([a, b][0]) == RowKey([a, b][1]);
  }

  /** The page keeps its session fields after a successful enrollment, so
      after one email check a second press of "Confirm enrollment" with the
      same valid input appends a second row for the same email, and the
      sheet no longer has one row per email. */
  method EnrollTwice(name: string, surname: string, email: string, mode: Mode, team: string,
                     ts1: string, ts2: string) returns (sheet: seq<Row>)
    requires name != "" && surname != "" && !Blank(email)
    requires mode == WithChallenge ==> !Blank(team)
    ensures sheet == [RegistrationRow(name, surname, email, mode, NormalizeTeam(team), ts1),
                      RegistrationRow(name, surname, email, mode, NormalizeTeam(team), ts2)]
    ensures !Unique(sheet)
  {
    var page := new EnrollPage([]);
    var outcome := page.Verify(email);
    assert page.existing == None;
    var first := RegistrationRow(name, surname, email, mode, NormalizeTeam(team), ts1);
    var second := RegistrationRow(name, surname, email, mode, NormalizeTeam(team), ts2);
    assert CheckEnrollment(name, surname, mode, team) == Accepted;
    outcome := page.ConfirmEnroll(name, surname, email, mode, team, ts1);
    assert outcome == Accepted;
    assert page.rows == [first];
    outcome := page.ConfirmEnroll(name, surname, email, mode, team, ts2);
    assert outcome == Accepted;
    assert page.rows == [first] + [second];
    assert [first] + [second] == [first, second];
    sheet := page.rows;
    SameEmailNotUnique(first, second);
  }
}
