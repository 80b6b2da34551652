# IBM Journey Open Day registration — a Dafny model

This project models two parts of the IBM Journey Open Day registration system.

The first is the "OpenDay Enroll" section of the registration page (`app.py`). A visitor enters an email and presses
"Verificar email". The page looks the email up in the registration sheet, comparing emails trimmed and lower-cased, and
remembers two session fields: that the email was checked, and the row found for it. What happens next depends on the
lookup:

- If no row was found, the page offers a new registration. The visitor chooses between "Attend Open Day only" and
  "Attend Open Day + Participate in the Challenge". Name and surname must be non-empty, and the challenge needs a team
  name, which is trimmed and title-cased. One row (Nome, Apelido, Email, Participa Challenge, Equipa, DataHora) is then
  appended. Participa Challenge is "Sim" or "Não", and Open-Day-only rows carry the placeholder team "—".
- If a row was found, the page offers to switch that registration to the other mode. A switch into the challenge needs a
  team name. The check runs before the sheet is touched; then the row of the email is deleted and a replacement row,
  keeping the old name and surname, is appended.

The second is the teacher's dashboard (`dashboard_professor.py`). It loads every registration. An empty sheet gives an
empty table with the default columns and an information message. Otherwise the rows are counted per exact value of
Equipa, and an error is raised when any team has more than two rows.

Modules:

- `Text`: Python's `str.strip()` with the exact `str.isspace()` character set, and `lower()`/`title()` on ASCII letters.
- `Scan`: generic first-match search, first-match removal and filtering over a sequence.
- `App`: the sheet rows, the validation rules, the rows written, and the page as a class `EnrollPage`. The class holds
  the sheet and the two session fields; its button handlers are methods proved against the functions above.
- `Dashboard`: loading, counting per team, the over-limit check and what is displayed.

On these points the model follows the code:

- No team-size cap is checked by the enrollment page. The only check of the two-per-team rule is the dashboard's error
  message.
- The session fields are not reset after a successful enrollment or update. A second press of "Confirm enrollment"
  therefore writes a second row for the same email (`App.EnrollTwice`).
- Team names are trimmed and title-cased, but whitespace inside a name is not collapsed: " acme  team " becomes
  "Acme  Team", not "Acme Team".
- The confirm handlers write the email field as it is when the button is pressed. This may differ from the email that
  was checked, so it is a separate parameter of each handler.

## Model

| member | source | states |
|---|---|---|
| `Text.Strip` | app.py:9 | the result neither starts nor ends with whitespace (Python's `isspace` set) and is no longer than the input |
| `Text.StripTrims` | app.py:9 | `s.strip()` is a contiguous slice of `s` with only whitespace cut from either end |
| `Text.StripEmpty` | app.py:9 | `s.strip()` is empty exactly when every character of `s` is whitespace |
| `Text.StripIgnoresPadding` | app.py:15 | whitespace added at either end of a string does not change its `strip()` |
| `Text.StripIdempotent` | app.py:43 | stripping a stripped string changes nothing |
| `Text.LowerChar` | app.py:15 | an upper-case letter becomes the lower-case letter 32 code points below it, every other character is unchanged; the result is never upper-case and stays a letter or whitespace as the input was |
| `Text.Lower` | app.py:15 | `lower()` keeps the length and lower-cases each character in place |
| `Text.StripLower` | app.py:15 | trimming and lower-casing commute, so the order in which the email key is built does not matter |
| `Text.UpperChar` | app.py:43 | a lower-case letter becomes the upper-case letter 32 code points above it, every other character is unchanged |
| `Text.TitleChar` | app.py:43 | after a letter a character is not upper-case, elsewhere not lower-case, and it is the same letter up to case |
| `Text.TitleFrom` | app.py:43 | each character is upper-cased when it starts a run of letters and lower-cased otherwise; whitespace and letters stay where they are |
| `Text.Title` | app.py:43 | `title()` keeps the length and re-cases each character in place: upper-case where it starts a run of letters, lower-case inside one |
| `Text.TitleCharIgnoresCase` | app.py:43 | the title-cased form of a character does not depend on its case |
| `Text.TitleIgnoresCase` | app.py:43 | title-casing a lower-cased string gives the same result as title-casing the string itself |
| `Text.TitleIdempotent` | app.py:43 | title-casing twice is title-casing once |
| `Scan.FirstWhere` | app.py:14-16 | the index of the first element passing the test; none exactly when no element passes |
| `Scan.RemoveFirstWhere` | app.py:84 | the sequence without the element `FirstWhere` finds: one shorter, the elements before it in place and those after it moved up by one; unchanged when none is found |
| `Scan.RemoveFirstAtMostOne` | app.py:84 | when at most one element passes the test, removing the first one removes every one |
| `App.Lookup` | app.py:13-16 | the row found is the first row whose trimmed, lower-cased email equals the given one; none exactly when no row matches |
| `App.DeleteRegistration` | app.py:84 | deleting the registration of an email with no row leaves the sheet unchanged; otherwise exactly one row goes, and no row is added or duplicated (the removed row is the one `FirstWhere` finds, as `Scan.RemoveFirstWhere` states) |
| `App.DeleteRemovesLookup` | app.py:84 | deleting a registration removes exactly the row that lookup finds and keeps every other row |
| `App.DeleteUnique` | app.py:84 | on a sheet with one row per email, deleting the first matching row deletes every row of that email |
| `App.ModeOf` | app.py:70 | a row whose Participa Challenge is "Sim" reads as a challenge registration, one with "Não" as Open Day only |
| `App.ModeIgnoresCaseAndPadding` | app.py:70 | Participa Challenge values that agree up to letter case read as the same mode, with or without whitespace around them |
| `App.PaddedCapitalYesReadsAsYes` | app.py:70 | " SIM " reads as a challenge registration, like "Sim" |
| `App.Other` | app.py:74 | the mode offered for a switch is never the current one |
| `App.NormalizeTeam` | app.py:40-43 | the team name is empty exactly when the input is blank; it is already stripped and as long as the stripped input |
| `App.NormalizeTeamIgnoresCase` | app.py:43 | team names that differ only in letter case normalise to the same name |
| `App.NormalizeTeamIdempotent` | app.py:43 | a normalised team name normalises to itself |
| `App.RegistrationRow` | app.py:52-60 | the row written holds the given name, surname, email and time; it reads back in the chosen mode; Participa Challenge is "Sim" or "Não"; the team is the given one in the challenge and "—" otherwise |
| `App.UpdatedRow` | app.py:85-93 | the replacement row keeps the old name and surname, takes the given email and time, reads back in the other mode with "Sim" or "Não" to match, and carries the new team in the challenge and "—" otherwise |
| `App.CheckEnrollment` | app.py:45-51 | an enrollment is accepted exactly when name and surname are non-empty and, in the challenge, the team name is not blank; a missing name or surname is reported first, and with both present a refusal is always the missing team |
| `App.CheckUpdate` | app.py:80-83 | a switch is accepted unless it goes into the challenge with a blank team name, which is reported as a missing team |
| `App.UpdateTwiceRestoresMode` | app.py:70-74 | two switches bring a registration back to the mode it started in |
| `App.AppendFresh` | app.py:53-60 | appending a row for an email not yet on a one-row-per-email sheet keeps it that way, and a lookup of that email finds the new row |
| `App.DeleteKeepsUnique` | app.py:84 | deleting a registration keeps the sheet at one row per email |
| `App.EnrollKeepsUnique` | app.py:13-19 | an enrollment for an email that lookup did not find keeps one row per email, and checking the email again finds the new row, so the page then shows the update form |
| `App.UpdateKeepsUnique` | app.py:84-93 | a switch removes every row of the email, leaves the replacement as its only row, and keeps one row per email |
| `App.EnrollPage.constructor` | app.py:22-23 | a fresh page holds the sheet, has no email checked and no registration found |
| `App.EnrollPage.Append` | app.py:53-60 | `guardar_registo` appends exactly one row and leaves the session fields alone |
| `App.EnrollPage.Delete` | app.py:84 | `apagar_registo` removes the registration of the email and leaves the session fields alone |
| `App.EnrollPage.Verify` | app.py:8-19 | a blank email is refused with the email-required warning and changes nothing; otherwise the page records that the email was checked and the registration lookup finds, and the sheet is unchanged |
| `App.EnrollPage.ConfirmEnroll` | app.py:22-60 | the outcome is the enrollment check; an accepted enrollment appends exactly the registration row with the normalised team, and a refused one changes nothing |
| `App.EnrollPage.ConfirmUpdate` | app.py:68-93 | the outcome is the switch check for the other mode; an accepted switch deletes the email's row and appends the replacement row, and a refused one changes nothing |
| `App.SingleRow` | app.py:13-16 | on a sheet holding one row for an email, lookup finds that row and deleting the registration empties the sheet |
| `App.EnrollThenSwitch` | app.py:8-93 | for any name, surname, non-blank email and non-blank team: an Open-Day-only enrollment, a second email check and a switch to the challenge leave exactly one row, with "Sim", the normalised team and the time of the switch |
| `App.EnrollTwice` | app.py:18-60 | for any valid input, after one email check two presses of "Confirm enrollment" leave exactly the two registration rows, and the sheet no longer has one row per email, since the session fields are never reset |
| `Dashboard.Load` | dashboard_professor.py:20-24 | an empty sheet loads as a table with no rows under Nome, Apelido, Email, Equipa, DataHora; otherwise the records are kept under the sheet's header |
| `Dashboard.Teams` | dashboard_professor.py:44 | the Equipa column, row by row |
| `Dashboard.TeamSize` | dashboard_professor.py:43-47 | the size of a group is the number of occurrences of that exact team value in the Equipa column |
| `Dashboard.DistinctTeams` | dashboard_professor.py:43-47 | the groups are the values of the Equipa column, each once |
| `Dashboard.CountsOf` | dashboard_professor.py:43-47 | one count line per listed team, carrying that team's size |
| `Dashboard.CountsOfMembers` | dashboard_professor.py:43-47 | the count lines are exactly those of the listed teams, each with its size |
| `Dashboard.CountTable` | dashboard_professor.py:43-47 | the count table has one line per distinct Equipa value, every value of the column has its line with its exact size, and no line has size zero |
| `Dashboard.TotalCovers` | dashboard_professor.py:43-47 | the sizes of distinct teams covering every row add up to the number of rows |
| `Dashboard.CountsSumToRows` | dashboard_professor.py:43-47 | the sizes in the count table add up to the number of registrations: each row is counted once |
| `Dashboard.OverLimit` | dashboard_professor.py:53 | a line is kept exactly when it is in the count table and its size exceeds two |
| `Dashboard.OverLimitExactly` | dashboard_professor.py:53 | a team is listed as over the limit, with its size, exactly when more than two rows carry it |
| `Dashboard.ErrorShownExactly` | dashboard_professor.py:53-55 | the over-limit list is non-empty exactly when some registration's team has more than two rows |
| `Dashboard.Render` | dashboard_professor.py:27-56 | with no registrations only the message is shown; otherwise the count table and its over-limit lines, and the error exactly when some team has more than two rows |
| `Dashboard.PlaceholderTeamFlagged` | dashboard_professor.py:43-55 | three Open-Day-only rows with the placeholder team "—" raise the over-limit error |
| `Dashboard.OpenDayOnlyRegistrationsFlagged` | dashboard_professor.py:43-55 | three Open-Day-only registrations as the enrollment page writes them raise the over-limit error |
| `Dashboard.ChallengeRows` | dashboard_professor.py:43-47 | the challenge rows are exactly the rows that read as challenge registrations, each as often as it occurs in the sheet |
| `Dashboard.RenderChallengeTeams` | dashboard_professor.py:27-56 | the dashboard counting only challenge rows: the error is shown exactly when some challenge team has more than two challenge rows |
| `Dashboard.OpenDayOnlyIgnored` | dashboard_professor.py:43-55 | adding an Open-Day-only registration does not change what the corrected dashboard counts |
| `Dashboard.OpenDayOnlyNotFlagged` | dashboard_professor.py:43-55 | the three Open-Day-only rows that trip the dashboard as written raise no error once only challenge rows are counted |

## Left out

- The Streamlit page itself is not modelled: widgets, messages, layout and re-running the script on each interaction.
  `st.stop()` after a warning becomes an early return carrying the reason.
- `enviar_email` (sending the confirmation and update emails) is not modelled. It has no effect on the sheet, and its
  source is not part of this model.
- Google Sheets access, credentials and `gspread` are not modelled. The sheet is a sequence of rows held by the page.
  On the registration page (`app.py`), which reads the sheet with `.get(…, "")`, a column the sheet lacks reads as "".
- `carregar_registos` and `guardar_registo` of the registration page are not part of this model. They are taken to
  read every row and to append one row.
- `App.EnrollPage.Delete`: the body of `apagar_registo` is not part of this model. It is modelled as removing the first
  row whose trimmed, lower-cased email matches, which is the row lookup finds. `App.DeleteUnique` shows this removes
  every match on a sheet with one row per email.
- `datetime.now()` is not modelled: the timestamp is a parameter.
- `Text.Lower`: only ASCII letters are lower-cased; Python's `lower()` also folds non-ASCII letters.
- `Text.Title`: only ASCII letters count as cased and are re-cased; Python's `title()` uses the full Unicode letter
  categories.
- `Dashboard.CountTable`: the order of the lines is not stated. pandas sorts the groups by team name, and the order does
  not affect the counts or the error.
- The dashboard's table of all registrations (`df[[...]]`) is not modelled as a display. Neither is a sheet with
  records that lacks any of Nome, Apelido, Email, Equipa or DataHora: pandas raises `KeyError` at
  dashboard_professor.py:35, before anything is counted, while the model always has the five fields and shows the
  counts.
- Concurrent sessions writing to the same sheet are not modelled. Each handler is one atomic step on the sheet.

## Findings

| source | as written | input that shows it | evidently intended | confidence | as-written member | corrected member |
|---|---|---|---|---|---|---|
| dashboard_professor.py:43-55 | every row is grouped by Equipa, including Open-Day-only rows, which the enrollment page writes with the placeholder team "—" | three registrations for the Open Day only: the "—" group has three rows and the "more than 2 students per team" error is shown | the two-per-team limit applies to challenge teams, so only rows that take part in the challenge are counted | medium, not executed | `Dashboard.PlaceholderTeamFlagged` | `Dashboard.RenderChallengeTeams` |
