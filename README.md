# Rate-your-professor: attendance gate and registration core, in Dafny

This project models the decision logic of the Flask application `main.py` of a
professor-rating site for students of Mahindra University:

- **Attendance extraction** (`AttendanceParser`): the OCR text of an uploaded
  attendance screenshot is searched for `present / total = percentage`; the
  percentage of the leftmost occurrence is the result, or a failure sentinel.
  The regular expression is modelled as a deterministic greedy scan. The
  scan is proved sound, complete and unique against a direct statement of
  what a match is. The value is an exact rational, not a float.
- **Attendance gates** (`AttendanceGate`): `upload_attendance` stores the
  parsed value in the session. `questionnaire` and `write_review` check
  login first, then the presence of an attendance, then the 75 threshold.
  `submit_rating` and `submit_review` check only login.
- **Registration e-mail check** (`EmailCheck`): the `re.match` pattern for
  `@mahindrauniversity.edu.in` addresses, including Python's acceptance of
  one trailing line feed before `$`.
- **One-time-password registration** (`Registration`): the pending store
  `otp_storage` and the users table. `register` files a form with a fresh
  six-digit code. `verify_otp` moves the form into the users table when the
  typed code equals the stored one. The class `OtpStore` holds the two maps,
  and its methods are tied to the pure steps `RegisterStep` and `VerifyStep`.
- **Community page** (`Community`): replies are grouped by post id in a loop
  and attached to posts in a second loop (both as methods with loop
  invariants). The module also covers the `reply` handler's form
  normalisation and the uniqueness of community usernames on joining.
- **Professor list** (`ProfessorList`): exact search matches first, then the
  fuzzy matcher's extras, and the rated-then-unrated fill to 15.

`Wrappers` holds `Option`. `Text` holds ASCII character classes, digit
values, `str(n)`, `strip` and `lower`.

Behaviour of the code a reader may not expect:

- An image that cannot be decoded is not a tagged failure. `cv2.imdecode`
  returns `None`, and `cv2.cvtColor` then raises an exception that the route
  does not catch: the call to the extractor (main.py:273) lies outside the
  route's `try` block. The model gives
  `ServerError` and leaves the session unchanged.
- `upload_attendance` does not require a login.
- The submission routes do not repeat the attendance check
  (`SubmissionSkipsAttendance`). A logged-in user without a stored
  attendance can post a rating or a review directly.

## Model

| member | source | states |
|---|---|---|
| `Text.StripIdempotent` | main.py:629 | stripping a message twice gives the same text as stripping it once |
| `Text.StripDecomposes` | main.py:534 | `strip` removes only whitespace, only from both ends, and keeps the middle |
| `Text.DecimalString` | main.py:86 | `str(n)` is a non-empty run of digits with no leading zero unless n is 0 |
| `Text.Strip` | main.py:629 | `str.strip()` is empty iff the text is all whitespace, and otherwise starts and ends with a non-whitespace character |
| `Text.Lower` | main.py:179 | `.lower()` keeps the length and maps each character, A-Z to a-z, everything else unchanged |
| `Text.DecimalStringValue` | main.py:86 | `int(str(n)) == n` for the code text of the drawn number |
| `AttendanceParser.Scan` | main.py:297 | whatever the scan returns at a start index is a match of the pattern there, and it is the greedy one for group 3 |
| `AttendanceParser.ScanComplete` | main.py:297 | if the pattern can match at an index at all, the scan finds a match there, with the same numerator, separators and denominator |
| `AttendanceParser.GreedyIsScan` | main.py:297 | the greedy match at an index is exactly what the scan returns |
| `AttendanceParser.GreedyUnique` | main.py:297 | there is at most one greedy match per start index, so the reported group 3 is determined |
| `AttendanceParser.SearchFrom` | main.py:297 | a result of `re.search` is a start index at or after the given one where the scan succeeds, with the scan's match |
| `AttendanceParser.SearchFromSkips` | main.py:297 | every start the search passes over, before its result or with no result, is one where the scan fails |
| `AttendanceParser.SearchFromLeftmost` | main.py:297 | `re.search` returns the leftmost start whose scan succeeds, and no earlier start succeeds; with no result, no start succeeds |
| `AttendanceParser.FractionValue` | main.py:299 | the fraction digits stand for a value in [0, 1), and an absent fraction for 0 |
| `AttendanceParser.Group3Value` | main.py:299 | `float()` of group 3 is at least the value of its integer digits |
| `AttendanceParser.Extract` | main.py:297-300 | the extracted percentage is never negative |
| `AttendanceParser.ExtractFailsIffNoOccurrence` | main.py:297-300 | the failure sentinel is returned iff the pattern occurs nowhere in the text |
| `AttendanceParser.ExtractLeftmost` | main.py:297-299 | a returned value is group 3 of the greedy match at the leftmost start where any match exists |
| `AttendanceParser.CanonicalMatch` | main.py:297 | the parts of a text `num ws / ws den ws = ws whole[.frac]` form the greedy match at index 0, and the scan finds it there, with `whole` and `frac` as group 3's parts |
| `AttendanceParser.Group3Parts` | main.py:299 | `float()` of group 3 is the value of its integer digits plus that of its fraction digits |
| `AttendanceParser.ExtractCanonical` | main.py:297-299 | for any text `num ws / ws den ws = ws whole[.frac]` followed by a non-digit, the result is exactly whole + frac/10^len; it is not rounded or clamped, and num and den are ignored |
| `AttendanceParser.ExampleWithFraction` | main.py:297-299 | "12/16 = 75.0" gives 75 |
| `AttendanceParser.ExampleWithoutFraction` | main.py:297-299 | "12 / 16 = 75" gives 75, since the fraction is optional |
| `AttendanceParser.ExampleTrailingZeros` | main.py:297-299 | "45/60 = 75.00" gives 75 |
| `AttendanceParser.ExampleBareDot` | main.py:297-299 | "12/16 = 75." gives 75, since a dot without a digit after it is not part of the number |
| `AttendanceParser.ExampleUnchecked` | main.py:297-299 | "9/10 = 56.25%" gives 56.25 exactly, and 9/10 is not checked against it |
| `AttendanceParser.ExampleUnclamped` | main.py:297-299 | "1/1=120" gives 120 |
| `AttendanceParser.NoEqualsNotFound` | main.py:297-300 | a text without `=` gives the failure sentinel, since the separator before the percentage is required |
| `AttendanceParser.ExtractNoPattern` | main.py:300 | empty text, "75%" and "12/16" give the failure sentinel |
| `AttendanceGate.Upload` | main.py:267-288 | login is kept; outside a parsed value the session is unchanged; "verified" stores p with p >= 75, and "too low" stores p with p < 75 |
| `AttendanceGate.UploadStores` | main.py:275-286 | a parsed value is stored whatever its size; the message is "verified" iff it is >= 75 and "too low" otherwise; no pattern gives "could not extract" with the session unchanged; an undecodable image gives a server error |
| `AttendanceGate.AttendanceCheck` | main.py:305-315 | login first, then to upload iff no attendance is stored, refused iff it is below 75, form shown iff it is >= 75 |
| `AttendanceGate.Questionnaire` | main.py:303-317 | the rating form gate never looks up the professor |
| `AttendanceGate.WriteReview` | main.py:408-431 | the review form is shown iff the attendance check passes and the professor exists; "not found" only after the check passed |
| `AttendanceGate.SubmissionAccepted` | main.py:321-324 | a rating submission passes its guard iff the user is logged in |
| `AttendanceGate.UploadThenGate` | main.py:275-317 | after "verified" a logged-in user gets both forms; after "too low" both are refused; any other upload outcome leaves the gate's answer unchanged |
| `AttendanceGate.ReuploadRevokes` | main.py:276-283 | a later upload reading below 75 replaces an earlier verified one and closes the gate |
| `AttendanceGate.Login` | main.py:134-151 | a successful login sets the logged-in mark and keeps any stored attendance; a failed one changes nothing |
| `AttendanceGate.Logout` | main.py:155-160 | logout removes both the login and the stored attendance |
| `AttendanceGate.DeleteAccount` | main.py:655-678 | a posted deletion by a logged-in user removes the login but keeps the stored attendance; otherwise nothing changes |
| `AttendanceGate.LogoutForgetsAttendance` | main.py:155-160 | after logout the gate sends to login, and after logging in again it asks for a new upload |
| `AttendanceGate.DeleteKeepsAttendance` | main.py:655-678 | after deleting the account the gate sends to login, and a later login (into any account) gets the gate's earlier answer back, since the attendance is still in the session |
| `AttendanceGate.UploadBeforeLogin` | main.py:267-317 | an upload made before logging in is stored, and after login the gate answers from it |
| `AttendanceGate.SubmissionSkipsAttendance` | main.py:436-439 | a logged-in user with no attendance is refused the forms but passes the submission guard |
| `EmailCheck.ValidEmail` | main.py:74 | an accepted address ends with the domain, or with the domain and one line feed |
| `EmailCheck.ValidEmailIffShape` | main.py:74 | the matcher accepts exactly the strings made of a non-empty run of `[a-zA-Z0-9._%+-]`, the domain, and at most one trailing line feed |
| `EmailCheck.ValidEmailHasOneAt` | main.py:74 | an accepted address contains exactly one `@` |
| `EmailCheck.ValidEmailOfParts` | main.py:74 | a local part plus the domain is accepted, also with one line feed but not with two |
| `EmailCheck.RefusedExamples` | main.py:74-76 | an empty local part and another domain are refused |
| `Registration.OtpText` | main.py:86 | the code for a number drawn from 100000..999999 is six digits, has no leading zero, and reads back as the number |
| `Registration.RegisterStep` | main.py:74-98 | an invalid address is refused; a registered address is refused; otherwise the form and a fresh code overwrite the address's pending entry; the users table is never changed |
| `Registration.VerifyStep` | main.py:112-130 | succeeds iff a pending entry exists and its code equals the typed text exactly; success removes the entry and adds the form as a user; failure changes nothing |
| `Registration.RegisterKeepsConsistent` | main.py:82-98 | registration keeps the store consistent (pending forms filed under their own valid, unregistered address with a six-digit code) and leaves other addresses' entries alone |
| `Registration.VerifyKeepsConsistent` | main.py:112-124 | verification keeps the store consistent |
| `Registration.VerifyMovesOneEntry` | main.py:112-124 | a successful verification adds exactly one user and removes exactly one pending entry |
| `Registration.RegisterThenVerify` | main.py:86-124 | after registering, the mailed code completes the registration with the submitted form, and any other text is refused and changes nothing |
| `Registration.ReRegisterReplacesCode` | main.py:86-98 | registering an address again replaces its code: the first code no longer works, and the second files the second form |
| `Registration.NoSecondRegistration` | main.py:79-84 | once verified, the address is refused by `register` |
| `Registration.OtpStore.constructor` | main.py:29 | the store starts with no pending entry and the database's existing users, each filed under its own e-mail, and is consistent |
| `Registration.OtpStore.Register` | main.py:74-98 | the in-place update of `otp_storage` is `RegisterStep` and keeps the store consistent |
| `Registration.OtpStore.VerifyOtp` | main.py:112-124 | the check, the insert and `del otp_storage[email]` are `VerifyStep` and keep the store consistent |
| `Community.ReplyIndices` | main.py:590-592 | the positions of one post's replies, ascending; every matching position is listed |
| `Community.RepliesOfInOrder` | main.py:589-592 | a post's reply list is its replies in fetch order: the j-th entry is the reply at the j-th matching position |
| `Community.RepliesOfMembers` | main.py:589-600 | a reply is in a post's list iff it is a reply to that post |
| `Community.RepliesOfNone` | main.py:599 | a post without replies gets the empty list |
| `Community.GroupReplies` | main.py:589-592 | the map has a key iff some reply has that post id, and each key's list is that post's replies in fetch order |
| `Community.AttachReplies` | main.py:595-600 | one entry per post, in post order, carrying the map's list or the empty list |
| `Community.EnrichPosts` | main.py:584-602 | posts keep their order and count; each gets exactly its replies in fetch order; a reply shown under a post belongs to it, so replies to absent posts are dropped |
| `Community.NormaliseParent` | main.py:630-634 | a missing or empty parent id becomes `None`, and any other value is kept |
| `Community.NormaliseParentIdempotent` | main.py:632-634 | normalising twice is normalising once, and never yields the empty string |
| `Community.PostReply` | main.py:608-648 | a reply is inserted iff logged in and a username is found (session value if non-empty, else the stored one); the row has the post id, the normalised parent and the stripped message |
| `Community.JoinCommunity` | main.py:516-551 | a member is added iff logged in, not yet a member, posting, and the stripped name is not taken; the name added is the stripped one; otherwise the table is unchanged |
| `Community.JoinKeepsNamesUnique` | main.py:536-544 | joining keeps community usernames unique and never changes an existing member's name |
| `ProfessorList.Select` | main.py:179 | the rows kept by a filter over the table are exactly the table's rows that pass it, and there are no more of them than rows |
| `ProfessorList.SelectIndices` | main.py:179 | the table positions of the rows a filter keeps, ascending; every position that passes is listed |
| `ProfessorList.SelectInOrder` | main.py:179 | the kept rows are in table order: the j-th kept row is the row at the j-th passing position |
| `ProfessorList.SelectDistinct` | main.py:179 | a filter over a table without repeated rows keeps no row twice |
| `ProfessorList.ExactMatches` | main.py:179 | the exact matches are exactly the professors whose lower-cased name contains the query |
| `ProfessorList.FuzzyExtras` | main.py:187 | the extras are exactly the fuzzy-named professors that are not exact matches |
| `ProfessorList.SearchResults` | main.py:177-189 | the search list holds only table rows and every exact match; `SearchMembers`, `SearchExactFirst` and `SearchExtrasInOrder` characterise it exactly |
| `ProfessorList.SearchMembers` | main.py:177-189 | the listed professors are the exact matches, plus the fuzzy-named ones only when there are fewer than 15 exact matches |
| `ProfessorList.SearchExactFirst` | main.py:179-189 | the list starts with the exact matches in table order (the j-th is the row at the j-th matching position), and with 15 or more of them the list is exactly them, not cut at 15 |
| `ProfessorList.SearchExtrasInOrder` | main.py:179-189 | with fewer than 15 exact matches, the rest of the list is the fuzzy extras in table order |
| `ProfessorList.SearchDistinct` | main.py:187 | no professor appears twice on the search list when the table has no repeated row |
| `ProfessorList.TopList` | main.py:192-202 | the list has min(15, rated + unrated) entries: the rated ones first, then the first unrated ones drawn |
| `ProfessorList.TopListRatedPart` | main.py:192-200 | the rated professors on the page are exactly the rated query's rows, in its order |

## Left out

- Image decoding, grayscale conversion, thresholding at 150 and OCR (main.py:291-295) are calls into OpenCV and Tesseract. The OCR text is an input, and decode failure is an input flag.
- `AttendanceParser.Extract`: the value is an exact rational, not an IEEE double. Python's `float()` rounds, so a text such as `74.99999999999999999` becomes 75.0 in the source and passes the gate, while the model keeps it below 75.
- Python's Unicode `\d`, `\s`, `str.strip()` and `str.lower()` are restricted to ASCII. Non-ASCII digits, which `re` and `float()` both accept, are not modelled.
- SMTP sending (main.py:43-61) is I/O and is left out. `random.randint` (main.py:86) is replaced by the drawn number as a parameter.
- SQLite queries, Flask routing, `session`, `flash`, `redirect` and `render_template` are I/O. The database appears only as the maps and sequences the modelled routes read and write.
- The users table is a map from e-mail to the stored form rather than a set of e-mails, since `verify_otp` inserts the whole form.
- The rating arithmetic (main.py:352-362) is floating point with `round(..., 2)`. The database writes of `submit_rating` and `submit_review` are also left out. Only their login guard is modelled.
- Login, logout and account deletion are modelled only by their effect on the session (`AttendanceGate.Login`, `Logout`, `DeleteAccount`). The credential query of login (main.py:140-142) is an input, and the row deletions of `delete_account` (main.py:667-672) are database writes and are left out.
- The profile, the professor page and the community page are not modelled. They are simple guards plus database reads and writes. `profile` redirects to login without a session (main.py:479-480). `professor_by_name` redirects when no row has the name (main.py:245-248). `community` requires a login and a community membership (main.py:556-570) before inserting a post (main.py:575-581).
- Each request is modelled as one atomic step. Flask may serve requests concurrently, and `verify_otp` checks, inserts and deletes the shared `otp_storage` entry (main.py:112-124) without a lock. Two concurrent submissions of the same code could then both insert the user, and the second `del` would raise `KeyError`. This interleaving is not modelled.
- The fuzzywuzzy scoring (main.py:184), `ORDER BY Avg_rating`, `ORDER BY RANDOM()` and `ORDER BY timestamp` are library or database behaviour. Their results are inputs.
- The projection of each professor row to five fields (main.py:204-210) and the JSON rendering (main.py:234-236) are left out.
- Reply post ids are integers. The form's text id is assumed to be converted by the integer column it is stored in; the schema is not part of this model.
- change.py is a CSV-to-SQLite import script, is pure I/O and is not part of this model.
