# Automated e-mail sending: a Dafny model of its decision logic

The repository is a set of Databricks notebooks that send reports by e-mail
through Microsoft Graph. Three pieces of decision logic sit inside them, and
this project models those three pieces and proves properties of them.

- **The fifth-working-day gate** (`Code/5th_working_day_checker.py`).
  - It finds the first and last day of the current month and lists the month's
    Monday-to-Friday dates with `pd.bdate_range`.
  - It takes the fifth of them, and fires the downstream notebook only when
    today is that date.
  - Modules `Calendar` and `WorkingDayGate` model it.
- **The send functions** (`automated_email_sending.py`).
  - They map the status codes of the user lookup, the group lookup and the
    membership check to results.
  - They build the `toRecipients` list and the attachment list.
  - A hard gate means the `sendMail` request goes out only for a sender that is
    a member of the `Corp_DataEng_AutomatedEmail` group.
  - Modules `Attachments` and `GraphMail` model them.
- **The cost-report notebook** (`Code/Example_2.py`).
  - It computes the reporting month, one month before the clock reading.
  - It appends extra recipients to a list without repeating any address.
  - Module `CostReport` models it.

Modelling choices:

- **Dates** follow Python's proleptic Gregorian `datetime.date`.
  - `Calendar.Ordinal` gives 0001-01-01 ordinal 1, and `Calendar.Weekday` is
    `(ordinal + 6) % 7` with Monday = 0.
  - `Calendar.DaysBeforeYearClosedForm` proves that the year count equals
    Python's closed form.
  - The clock is an input; the model reads it once.
- **Microsoft Graph endpoints** are oracle functions in a `GraphMail.Graph`
  record.
  - Each oracle returns the status code, plus the id fields the code reads.
  - A call returns the list of requests it issued, together with its outcome.
  - This turns "no mail without membership" into a statement about that list
    (`GraphMail.GateRespected`).
- **Serialised content** stays symbolic: data frames, workbook and csv bytes,
  and file contents.
  - An attachment records which table or file its bytes come from.
  - `os.path.exists` is a predicate parameter.
- **Exceptions:** `attachment_names[i]` raises `IndexError` when names run out.
  That case is a `Failure` result, and it ends the call before any request is
  made. Other exceptions of the packaging step are left out (see below).

Two behaviours of the code are easy to misread, and the model keeps both as
written:

- **A failed user or group lookup does not stop the send functions.** They still
  call `check_user_in_group`, with `None` in place of the missing id (lines
  133-136 and 167 of `automated_email_sending.py`). Whether mail goes out then
  depends on what the service answers. The model passes the optional ids to the
  membership oracle. `GraphMail.FailedLookupBlocksSend` states the case where the
  service refuses ids that are missing.
- **A 403 on the user lookup is not a separate result.** It returns `None` like
  any other non-200 status; only the printed message differs.

## Model

| member | source | states |
|---|---|---|
| `Calendar.NextPrevRoundTrip` | Code/5th_working_day_checker.py:13 | subtracting one day (`- pd.Timedelta(days=1)`) and adding one day are inverse on valid dates, across month and year ends |
| `Calendar.WeekdayAdvances` | Code/5th_working_day_checker.py:16 | the day after a valid date is valid and its weekday is one later, Sunday wrapping round to Monday, across month and year ends as well |
| `WorkingDayGate.LastDayOfMonth` | Code/5th_working_day_checker.py:12-13 | first-of-month plus one month minus one day is a valid date of the same month whose day number is the month's length (28/29/30/31 by the Gregorian rules); the next day lies in another month |
| `WorkingDayGate.BusinessDateRangeSpec` | Code/5th_working_day_checker.py:16 | every listed date lies in the month between the two bounds and is Monday to Friday; the list is strictly increasing; every working day between the bounds is listed; the i-th date is preceded by exactly i working days |
| `WorkingDayGate.MonthWorkingDays` | Code/5th_working_day_checker.py:19 | every month has at least 20 working days and exactly five in days 1 to 7, so the `len(working_days) >= 5` test always passes |
| `WorkingDayGate.FifthFallsInFirstWeek` | Code/5th_working_day_checker.py:19-21 | a day preceded by exactly four working days of its month is day 5, 6 or 7 |
| `WorkingDayGate.FifthWorkingDay` | Code/5th_working_day_checker.py:6-23 | the result always exists; it is a working day of the clock's month, preceded by exactly four working days of that month, and falls on day 5, 6 or 7 |
| `WorkingDayGate.FifthWorkingDayUnique` | Code/5th_working_day_checker.py:19-21 | two working days of one month that are both preceded by four working days are the same date |
| `WorkingDayGate.GateFiresIff` | Code/5th_working_day_checker.py:26-30 | the job runs on a date if and only if that date is a working day preceded by exactly four working days of its month |
| `WorkingDayGate.GateFiresOncePerMonth` | Code/5th_working_day_checker.py:26-30 | in every month some date fires the gate, and no two dates of one month both fire it |
| `WorkingDayGate.AprilTwentyTwentyFive` | Code/5th_working_day_checker.py:19-21 | 7 April 2025 is a Monday and is preceded by exactly four working days of April 2025 |
| `WorkingDayGate.AprilGateFires` | Code/5th_working_day_checker.py:29 | the gate fires on 7 April 2025 and not on Friday 4 April 2025 |
| `GraphMail.UserIdFromResponse` | automated_email_sending.py:69-76 | the user id is returned exactly on status 200, and it is the id of the response body; 403 and every other status give no id |
| `GraphMail.GroupIdFromResponse` | automated_email_sending.py:90-99 | a group id is returned exactly on status 200 with a non-empty group list, and it is the first listed group's id |
| `GraphMail.IsMemberFromStatus` | automated_email_sending.py:115-123 | membership holds exactly on status 200 or 204; 404 and every other status mean not a member |
| `GraphMail.ToRecipients` | automated_email_sending.py:140-147 | one recipient object per address, same length, the i-th carrying the i-th address |
| `GraphMail.AddressesOfRecipients` | automated_email_sending.py:259-266 | reading the addresses back from the built recipient list gives the input list |
| `GraphMail.RecipientsOfAddresses` | automated_email_sending.py:140-147 | every recipient list is the one built from its own addresses |
| `GraphMail.ComposeMessage` | automated_email_sending.py:268-281 | the message carries the subject, body type and content given; its recipients' addresses are the input list; the `attachments` key is present exactly when the attachment list is non-empty, and then holds that list |
| `GraphMail.DispatchMessage` | automated_email_sending.py:289-303 | at most one `sendMail` request, issued exactly when the sender is in the group, and only after a membership check answered 200 or 204; it posts this sender's message; the outcome is "sent" exactly when the send answered 202, and "not in group" exactly when membership fails |
| `GraphMail.SendEmailNoAttachment` | automated_email_sending.py:129-180 | a member's message is posted exactly once and a non-member's never, only after a passing membership check; the post carries this sender, the given subject, body and recipients, and no `attachments` key; the call ends "sent" exactly when that post is answered 202, "not in group" exactly for a non-member, and otherwise with the post's non-202 status |
| `GraphMail.SendEmailWithAttachments` | automated_email_sending.py:186-303 | the call raises exactly when packaging raises, with the same error and no request; otherwise a member's message is posted exactly once and a non-member's never, only after a passing membership check; the post carries this sender, the given subject, body and recipients, and the `attachments` key holds exactly the packaged list when it is non-empty and is absent otherwise; the call ends "sent" exactly when that post is answered 202 |
| `GraphMail.WithoutSourcesSendsPlainMessage` | automated_email_sending.py:280-281 | with no data frames, names or paths, the attachment-sending function makes the same requests and ends the same way as the plain one |
| `GraphMail.FailedLookupBlocksSend` | automated_email_sending.py:166-167 | if the service refuses membership checks that carry a missing id, a failed group or user lookup means no send request and a "not in group" outcome |
| `Attachments.Basename` | automated_email_sending.py:240 | the basename is a suffix of the path, has no `/`, and is the longest such suffix |
| `Attachments.BasenameKeepsExtension` | automated_email_sending.py:240 | a path ending in an extension without `/` has a basename ending in that extension |
| `Attachments.PathAttachmentsAppend` | automated_email_sending.py:231-248 | the attachments from a concatenation of path lists are the concatenation of their attachments, so input order is kept |
| `Attachments.PathAttachmentsSpec` | automated_email_sending.py:231-248 | every file attachment comes from an existing input path ending in `.xlsx`, `.xls` or `.csv`, is named by its basename, and is labelled spreadsheet exactly when the name ends in `.xlsx`; every such path yields its attachment |
| `Attachments.XlsIsLabelledCsv` | automated_email_sending.py:246 | an existing `.xls` file is attached under its basename with the `text/csv` type |
| `Attachments.TableAttachment` | automated_email_sending.py:197-228 | the attachment for a data frame is named with the given name plus `.` and the format; `xlsx` gives the spreadsheet MIME type and `csv` gives `text/csv`; it holds a workbook exactly for `xlsx`, and holds that table's serialisation |
| `Attachments.UnsupportedFormatYieldsNothing` | automated_email_sending.py:197-228 | a format other than `xlsx` or `csv` yields no data-frame attachments and no error |
| `Attachments.TableAttachmentsFailure` | automated_email_sending.py:192-225 | with a supported format, the loop raises exactly when some present data frame has no name, and it reports the first such index |
| `Attachments.TableAttachmentsSuccess` | automated_email_sending.py:191-228 | on success the k-th data-frame attachment is built from the k-th present data frame and the name at that frame's index, so `None` frames are skipped and order is kept |
| `Attachments.PackageAttachments` | automated_email_sending.py:188-248 | packaging raises exactly when both lists are given, the format is `xlsx` or `csv`, and a present data frame has no name, reporting the first such index; on success the list has one attachment per present data frame (when both lists are given and the format is supported) plus one per kept path; it opens with the data-frame attachments, the k-th built from the k-th present frame and its name, and ends with the path attachments; without paths no file is attached, and without data-frame attachments only files are |
| `CostReport.PreviousMonth` | Code/Example_2.py:18 | the result is a valid date exactly one calendar month earlier, on the same day or clipped to the last day of that month; from January of year 1 there is no result |
| `CostReport.PreviousMonthWraps` | Code/Example_2.py:15-18 | February to December step back within the year; January goes to December of the year before |
| `CostReport.MergeRecipients` | Code/Example_2.py:63-67 | the original list is a prefix of the result; the result holds exactly the original and the new items; each appended item was absent from the original list and appears once; appended items follow their first occurrence in `new_items`; no duplicates in stay no duplicates out; if every new item is already present, the list is unchanged |

## Left out

- MSAL token acquisition and Key Vault secret fetching: they are foreign library calls. The access token never influences a decision, so it is not modelled.
- HTTP requests, endpoint URLs and headers: each endpoint is a status-code oracle. URL strings and the `Authorization` header are not built.
- Data-frame serialisation, file reads and base64 encoding: `toPandas`, `to_excel` and `to_csv` are library internals. Contents are symbolic references to the table or path.
- The `@odata.type` tag of each attachment: it is the same constant for every attachment, so it is not stored.
- `os.path.exists`: it is a predicate parameter. `os.path.basename` is modelled on POSIX paths, as the text after the last `/`.
- Printed diagnostics: the messages for 403, missing group, non-202 sends and the gate's result are output only.
- `dbutils.notebook.run` and its `try`/`except`: this is orchestration, so only the trigger decision is modelled.
- Month names via `strftime('%B')`, the HTML message and `display`: presentation only.
- `read_hive_table` and the lookup table contents: the recipient list and the new items are parameters. The notebook's three hard-coded addresses are one instance.
- `Code/example_1.py`: a call site with fixed arguments.
- Time of day: `datetime.now()` carries hours and minutes. The gate compares dates only, and `relativedelta(months=1)` keeps the time unchanged, so only the date is modelled.
- The two clock readings: the gate script reads the clock once for `today` and again inside `get_5th_working_day`. The model uses one reading, so a run that straddles midnight is not modelled.
- Year bounds: `datetime` stops at year 9999 and pandas timestamps stop at 2262. The model accepts every year from 1 on.
- `pd.bdate_range` is modelled for two dates of one month only, which is how the gate calls it.
- `GraphMail.SendEmailWithAttachments`: only the `IndexError` of a missing attachment name is modelled as raising. `df.toPandas()` (line 195) and `open(file_path, "rb")` (line 235) can raise too, for example on a path that exists but is a directory or unreadable, and would also end the call before any request. Their failure conditions lie in Spark and the file system, so the model treats every data frame and every existing path as readable.
- Determinism of the gate is not stated as a lemma. Every modelled operation is a pure function of its inputs.
