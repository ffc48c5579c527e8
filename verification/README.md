# HD-Notes: one-time-passcode sign-in, notes and their client logic, in Dafny

HD-Notes is a small notes application. A user signs up or logs in with a
six-digit code mailed to their address, or with a Google account. After
that the user can create, list and delete their own text notes. This project
models the parts of the server and the web client that decide what happens,
as pure functions over immutable state, and proves what they promise.

- **The passcode lifecycle** (`OtpAuth`, backend/src/controllers/authController.ts).
  - State: a map from email to the pending entry `{otp, expires, name?, dob?}`, plus the user table.
  - Requesting a code (sign-up or log-in) checks the input and overwrites the entry for that email. The code stays valid for 300000 ms.
  - Verifying accepts only a stored, matching code that has not expired. The boundary is `expires < now`, so a code is still good at the millisecond it expires.
  - A successful verification deletes the entry, so each code works once. A failed one changes nothing.
  - `getUserInfo` is modelled too.
- **The user table** (`UserStore`). The database's user rows form a sequence. Email and Google id are unique keys, and row `i` carries id `i`.
- **The bearer-token gate** (`TokenGate`, backend/src/middleware/auth.ts).
  - The token is the second space-separated piece of the `Authorization` header.
  - The gate decides between the three 401 answers and letting the request through as a stored user.
- **The notes handlers** (`Notes`, backend/src/controllers/notesController.ts). Create, list and delete are all scoped to the authenticated caller.
- **The Google callback** (`GoogleLogin`, backend/src/passport.ts). It finds or creates the user by Google id. The session serialisers are modelled too.
- **The notes page** (`HomePage`, app/src/pages/Home.tsx).
  - `maskEmail`, including the JavaScript meaning of `/(.*)\./`: leftmost, greedy, and `.` does not match a line terminator.
  - The local list updates made after a create and a delete.
- **The sign-in page** (`SignInForm`, app/src/components/SignIn.tsx).
  - The anchored email validator, built as a small automaton and proved equal to its declarative form.
  - The code-field sanitiser.
  - The guards and state changes of the submit, get-code, sign-in, resend and back handlers.
- **Shared pieces**:
  - `Text`: JavaScript's `\s`, `trim`, `split` on one character, truthiness.
  - `EmailFormat`: the server's unanchored pattern `\S+@\S+\.\S+` and the page's anchored one.
  - `Seqs`: `filter`.
  - `Options`.
- **`Scenarios`** joins the client to the server:
  - a code typed into the page logs the user in;
  - the resulting token passes the gate;
  - an address the page sends, or resends, always passes the server's checks.

Everything a handler obtains from outside is a parameter:
- the current time in milliseconds;
- the generated code;
- whether the mail was delivered;
- how a birth date parses;
- how a token is signed and verified;
- the server's answer to a request made by the client.

## Model

| member | source | states |
|---|---|---|
| OtpAuth.SendOtp | backend/src/controllers/authController.ts:13-34 | "Missing required fields" exactly when email, name or dob is missing or empty. "Invalid email format" exactly when the fields are present and the email fails `\S+@\S+\.\S+`. Both 400s leave the state unchanged. Otherwise the entry for the email becomes `{code, now + 300000, name, dob}` and no other key changes. A well-formed request always writes the entry and answers 200 "OTP sent successfully" when delivered, or 500 "Failed to send OTP" with the new entry still written when not. |
| OtpAuth.VerifyOtpAndSignup | backend/src/controllers/authController.ts:36-68 | "Invalid or expired OTP" exactly when there is no entry, the code differs, or `expires < now`. "User already exists" exactly when the code is accepted and the email is taken. "Invalid date format" exactly when the stored dob does not parse. Every failure leaves the state unchanged. An accepted code for a free email whose stored dob is absent or parses always succeeds. On success the entry is deleted, one user with the stored name and parsed dob is appended, the reply carries that user and a token signed for its id, and the table stays valid. |
| OtpAuth.SendOtpForLogin | backend/src/controllers/authController.ts:70-88 | 400 "Email required" exactly when the email is missing or empty. 400 "Invalid email format" exactly on a pattern failure. 404 "User not found" exactly when no user has the email. None of these three writes anything. Otherwise the entry becomes `{code, now + 300000}` with no name or dob, whether or not delivery succeeds, and the reply is 200 "OTP sent successfully" when delivered and 500 "Failed to send OTP" when not. |
| OtpAuth.VerifyOtpAndLogin | backend/src/controllers/authController.ts:90-105 | "Invalid or expired OTP" under the same condition as sign-up. 404 "User not found" exactly when the code is accepted but no user has the email. Failures change nothing. An accepted code for a stored email always succeeds. Success deletes the entry and returns the stored user with a token signed for its id. The user table never changes. |
| OtpAuth.GetUserInfo | backend/src/controllers/authController.ts:107-120 | 401 "No token provided" exactly when the header has no second piece or an empty one. 401 "Token verification failed" exactly when the token does not verify. Any verified token gets a 200 carrying the lookup of the verified id, which may be empty. |
| OtpAuth.UserInfoAgreesWithGate | backend/src/controllers/authController.ts:107-120 | `getUserInfo` returns a stored user exactly when the gate lets the request through as that user. It returns an empty profile exactly when the gate answers "Invalid token", and a 401 exactly when the gate refuses for any other reason. |
| OtpAuth.ExpiryBoundary | backend/src/controllers/authController.ts:39-41 | Both verification handlers get past the code check with a matching code at `now == expires`, and both answer "Invalid or expired OTP" at `expires + 1`. |
| OtpAuth.SignupCodeWorksOnce | backend/src/controllers/authController.ts:66-67 | After a successful sign-up verification the entry is gone. Every later sign-up or log-in verification of that email, with any code at any time, gets "Invalid or expired OTP". |
| OtpAuth.LoginCodeWorksOnce | backend/src/controllers/authController.ts:100-101 | After a successful log-in verification the entry is gone and every later log-in verification of that email fails. |
| OtpAuth.ResendInvalidatesOldCode | backend/src/controllers/authController.ts:20-26 | After a new code is requested (sign-up or log-in), the earlier, different code no longer verifies, whatever the delivery outcome. Both the sign-up and the log-in verification answer "Invalid or expired OTP". |
| OtpAuth.DeliveryFailureKeepsCode | backend/src/controllers/authController.ts:20-33 | The state after a failed delivery equals the state after a successful one, for both request handlers. |
| OtpAuth.WrongCodeKeepsEntry | backend/src/controllers/authController.ts:39-41 | A wrong guess leaves the state unchanged. A later verification then answers exactly as it would have without the guess. |
| OtpAuth.SignupRoundTrip | backend/src/controllers/authController.ts:13-68 | For a new address, request then verify within five minutes creates exactly the expected user and token and removes the entry. A second verification fails. A verification after five minutes fails. |
| OtpAuth.LoginRoundTrip | backend/src/controllers/authController.ts:70-105 | For a stored user, request then verify within five minutes returns that user with a token for its id and removes the entry. A verification after five minutes fails. |
| UserStore.FindByEmail | backend/src/controllers/authController.ts:43 | The result is a stored row with that email, and there is none exactly when no row has it. |
| UserStore.FindById | backend/src/middleware/auth.ts:18 | The result is a stored row with that id, and there is none exactly when no row has it. |
| UserStore.FindByGoogleId | backend/src/passport.ts:14-16 | The result is a stored row with that Google id, and there is none exactly when no row has it. |
| UserStore.Insert | backend/src/controllers/authController.ts:55-61 | The new row gets the next id and the given fields, and it goes at the end. Existing rows are untouched and the table's constraints still hold. |
| UserStore.Create | backend/src/passport.ts:17-28 | The insert succeeds exactly when neither the email nor the Google id is taken. |
| UserStore.FindByIdInValid | backend/src/middleware/auth.ts:18-21 | In a valid table, looking up a stored user's id finds that user. |
| UserStore.FindByEmailInValid | backend/src/controllers/authController.ts:97-98 | In a valid table, looking up a stored user's email finds that user. |
| TokenGate.BearerToken | backend/src/middleware/auth.ts:11 | There is a token exactly when the header contains a space. The token has no space, and it is the text between the first space and the next space or the end. |
| TokenGate.BearerTokenOfHeader | backend/src/middleware/auth.ts:11 | A header `scheme + " " + token` with both parts space-free yields the token. |
| TokenGate.Gate | backend/src/middleware/auth.ts:6-25 | Every refusal is a 401. "No token provided" exactly for an absent or empty token. "Token verification failed" exactly when verification fails. "Invalid token" exactly when the verified id names no user. Every refusal is one of these three. A token that verifies to a stored user's id always passes, once, as that user. |
| TokenGate.GateAdmitsValidToken | backend/src/middleware/auth.ts:11-21 | `Bearer <token>` for a token verifying to a stored user's id lets the request through as that user. |
| Notes.CreateNote | backend/src/controllers/notesController.ts:4-16 | "Text required" exactly for missing or empty text, with nothing created. Otherwise one note is appended, owned by the caller and holding the text, with an id no existing note has. The table stays valid. |
| Notes.GetNotes | backend/src/controllers/notesController.ts:18-27 | The result holds exactly the caller's notes, and none more often than it is stored. |
| Notes.DeleteNote | backend/src/controllers/notesController.ts:29-39 | The delete succeeds exactly when the caller owns a note with that id. It then removes exactly that row and leaves the others in order. Otherwise it answers 500 "Failed to delete note" and changes nothing. |
| Notes.DeleteRemovesOne | backend/src/controllers/notesController.ts:32-34 | In a valid table, removing the rows with an owned id removes exactly one row and keeps the table valid. |
| Notes.CreateThenList | backend/src/controllers/notesController.ts:9-11 | A created note appears at the end of its owner's list, and no other user's list changes. |
| Notes.DeleteThenList | backend/src/controllers/notesController.ts:32-34 | A delete leaves other users' lists unchanged. A successful one shortens the caller's list by one and leaves no note with that id in it. |
| GoogleLogin.FindOrCreate | backend/src/passport.ts:12-33 | An existing user with the profile's Google id is returned and nothing is created. Otherwise exactly one user is appended, with `googleId = profile.id`, the first profile email or "", and the display name. A taken email gives the error and no user. The table stays valid. |
| GoogleLogin.FindOrCreateIdempotent | backend/src/passport.ts:14-29 | A second call with the same profile returns the same user and adds nothing. |
| GoogleLogin.SecondEmaillessAccountFails | backend/src/passport.ts:21-24 | After one new Google account without an email has been stored, a second one is refused. |
| GoogleLogin.DeserializeUser | backend/src/passport.ts:38-41 | A found user is stored and carries the requested id. |
| GoogleLogin.SessionRoundTrip | backend/src/passport.ts:37-41 | Serialising a stored user to its id and deserialising gives the user back. |
| EmailFormat.ServerEmailCheck | backend/src/controllers/authController.ts:17-18 | The scan is true exactly when the string matches `\S+@\S+\.\S+` somewhere. |
| EmailFormat.ValidateEmailIff | app/src/components/SignIn.tsx:20-23 | The page accepts exactly the strings `A@R` where A is nonempty and free of whitespace and '@', R is free of both, and R has a '.' that is neither its first nor its last character. |
| EmailFormat.ValidEmailHasNoWhitespace | app/src/components/SignIn.tsx:26-34 | An accepted address has no whitespace, is not blank, and trims to itself. |
| EmailFormat.ClientValidImpliesServerValid | backend/src/controllers/authController.ts:73-74 | Every address the page accepts passes the server's test. |
| EmailFormat.ServerLaxerThanClient | backend/src/controllers/authController.ts:17 | The converse fails: "x@y@z.w" passes the server and fails the page. |
| HomePage.MaskDomain | app/src/pages/Home.tsx:92 | The masked domain has the original length, and a domain without '.' is unchanged. Each character is either kept or replaced by 'x', and only characters that are not line terminators are replaced. |
| HomePage.MaskPlainDomain | app/src/pages/Home.tsx:92 | On a domain without line terminators, everything before the last '.' becomes 'x', and that '.' and what follows are kept. |
| HomePage.MaskEmail | app/src/pages/Home.tsx:86-94 | The page throws exactly when the email has no '@'. |
| HomePage.MaskEmailOf | app/src/pages/Home.tsx:86-94 | `name@domain`, optionally followed by '@' and anything, is shown as the name's first character (nothing if the name is empty), "xxxxx@", and the masked domain. |
| HomePage.MaskDotComEmail | app/src/pages/Home.tsx:86-94 | `name@host.com` is shown as the name's first character, "xxxxx@", one 'x' per host character, and ".com". |
| HomePage.MaskEmailTotal | app/src/pages/Home.tsx:86-94 | It agrees with `maskEmail` whenever there is an '@', and shows the initial and "xxxxx@" when there is none. |
| HomePage.CreateRequest | app/src/pages/Home.tsx:144-153 | Nothing is posted exactly when the draft is blank. Otherwise the trimmed draft is posted, and it is nonempty. |
| HomePage.CreateRequestOf | app/src/pages/Home.tsx:153 | A draft made of whitespace, a text whose ends are not whitespace, and more whitespace posts exactly that text. |
| Text.Trim | app/src/pages/Home.tsx:144 | The result is the stretch of the input that starts after its leading whitespace and leaves only whitespace behind it. Neither end of the result is whitespace. |
| Text.TrimAround | app/src/pages/Home.tsx:153 | Trimming whitespace, a text with non-whitespace ends, and whitespace gives exactly that text. |
| HomePage.CreateNoteLocal | app/src/pages/Home.tsx:143-162 | A blank draft only sets "Note text required". On success the server's note is appended at the end, the earlier notes keep their order, and the draft and error are cleared. A failure only sets "Failed to create note". |
| HomePage.DeleteNoteLocal | app/src/pages/Home.tsx:164-175 | On success the list keeps exactly the notes with other ids and the draft and error are untouched. A failure only sets "Failed to delete note". |
| HomePage.DeleteLocalIdempotent | app/src/pages/Home.tsx:168 | Deleting the same id twice gives the same list as deleting it once. |
| HomePage.DeleteLocalKeepsOrder | app/src/pages/Home.tsx:168 | Removing a note from `before + [n] + after` leaves exactly `before + after`, whatever the draft and error line hold. |
| HomePage.CreateKeepsListInSync | app/src/pages/Home.tsx:153-154 | If the page's list equals the caller's server list, it still does after a successful create. |
| HomePage.DeleteKeepsListInSync | app/src/pages/Home.tsx:167-168 | If the page's list equals the caller's server list, it still does after a successful delete of an owned note. |
| SignInForm.ErrorText | app/src/components/SignIn.tsx:44-48 | The shown error is the first non-empty of the response's `error`, its `message`, and the fallback. |
| SignInForm.SanitizeOtp | app/src/components/SignIn.tsx:202 | The field holds the digits of the typed text, in order. It is truncated to six, and shorter only when there are fewer digits. |
| SignInForm.SanitizeFixedPoints | app/src/components/SignIn.tsx:202 | The sanitiser leaves a value alone exactly when the value is at most six digits. |
| SignInForm.SanitizeIdempotent | app/src/components/SignIn.tsx:202 | Sanitising twice is the same as sanitising once. |
| SignInForm.HandleGetOtp | app/src/components/SignIn.tsx:25-52 | A blank email gives "Email is required" and a rejected one "Please enter a valid email address", each with nothing sent. A request is sent exactly when the page's validator accepts the email, and it carries that email unchanged. The code field appears exactly on success, and the error is cleared exactly on success. On a failed send, the error is the server's message, or "Failed to send OTP. Please try again." when there is none. |
| SignInForm.HandleSignIn | app/src/components/SignIn.tsx:54-88 | A blank code gives "OTP is required" and any other length but six "OTP must be 6 digits", each with nothing sent. Otherwise the trimmed email and code are sent. The session is set only on success, and the error is cleared exactly on success. On a failed verification, the error is the server's message, or "Verification failed. Please check your OTP." when there is none. |
| SignInForm.HandleResendOtp | app/src/components/SignIn.tsx:90-106 | It always requests a code for the trimmed email, changes only the error line, and clears that line exactly on success. On failure, the line is the server's message, or "Failed to resend OTP. Please try again." when there is none. |
| SignInForm.HandleSubmit | app/src/components/SignIn.tsx:108-115 | It takes the get-code path while the code field is hidden and the sign-in path after. |
| SignInForm.HandleBackToEmail | app/src/components/SignIn.tsx:117-121 | The code field is hidden, and the code and error are cleared. The email and session are kept. |
| SignInForm.BackThenSubmitRequestsNewCode | app/src/components/SignIn.tsx:108-121 | Going back and submitting with a valid email requests a new code for that email. |
| SignInForm.SignInSendsTypedCode | app/src/components/SignIn.tsx:55-72 | A code the field holds, once past the guards, is sent unchanged and has six digits. |
| SignInForm.SignInSendsCode | app/src/components/SignIn.tsx:54-72 | A six-digit code typed on a form with a valid email is sent exactly as typed, with that email. |
| Scenarios.EmailStepPassesServerChecks | app/src/components/SignIn.tsx:31-40 | An address the page sends for a code never gets a 400 from the server's log-in request handler. |
| Scenarios.ResendRepeatsEmailStep | app/src/components/SignIn.tsx:90-106 | After the email step has sent a code, a resend, which does not check the email again, requests a code for the same address, and the server's format check passes it. |
| Scenarios.CodeLogsIn | backend/src/controllers/authController.ts:70-105 | The server stores and mails a code, the user types it, and the page sends it. Verified within five minutes, it returns the user with a token for its id and removes the entry. |
| Scenarios.SessionTokenPassesGate | backend/src/middleware/auth.ts:11-21 | The token of a successful log-in, sent as `Bearer <token>`, lets requests through as the logged-in user. |
| Scenarios.EmaillessGoogleUserBreaksHome | app/src/pages/Home.tsx:227 | A new Google user without an email is stored with "", `maskEmail` throws on it, and the corrected masking shows "xxxxx@". |

## Left out

- Email delivery (backend/src/utils/email.ts) is I/O. It is the `delivered` flag.
- Code generation is random and its file is not part of this model. The code is a parameter.
- JWT signing and verification are cryptographic library calls, including the one-hour token expiry. They are the `sign` and `verify` functions.
- Database failures are not modelled: "Failed to create note", "Failed to fetch notes", and a throwing `findUnique` in the gate. Only refusals that follow from the data are modelled: a delete matching no row, and a create breaking a unique key.
- Database ids are strings in the application. The model uses store-assigned natural numbers.
- Birth-date parsing with `new Date(...)` depends on the engine. It is the `parseDate` parameter.
- Strings are sequences of characters. UTF-16 code units and surrogate pairs are not distinguished.
- Concurrency on the shared code map and stale React state are outside a sequential model.
- Rendering, routing, localStorage, the loading flags, `handleLogout`, `handleKeyPress`, and fetching the notes on page load are UI and browser state.
- SignUp.tsx repeats the server's checks. The Google redirect (`handleGoogleSignin`) and the OAuth exchange belong to libraries.
- GoogleLogin.SerializeUser has no contract of its own. Its meaning is stated by GoogleLogin.SessionRoundTrip.
- HandleGetOtp sends `email.trim()`. For an address the validator accepts, the trim changes nothing, and the contract says so.
- The code map keeps an expired entry until it is overwritten. Such an entry can never verify again.
- `verifyOtpAndSignup` also answers 400 "Invalid date format" for an unparsable birth date, and it keeps the entry. The model does the same.
- A missing or foreign note gives 500 "Failed to delete note", not a not-found answer. The model does the same.
- `findMany` is called without an `orderBy`, so the database promises no order for a user's notes. The model takes it to return rows in insertion order. Notes.CreateThenList, HomePage.CreateKeepsListInSync and HomePage.DeleteKeepsListInSync rely on that order. Notes.GetNotes itself promises membership and no duplication, not an order.
- `getUserInfo` answers 200 with no user when the verified id names none. The gate answers "Invalid token" in the same case. Both are modelled as written.

## Findings

| source | as written | input that shows it | evidently intended | confidence | as-written member | corrected member |
|---|---|---|---|---|---|---|
| app/src/pages/Home.tsx:86-94 | `maskEmail` destructures `[name, domain]` from `email.split("@")` and calls `domain.replace`. With no '@', `domain` is undefined and the call throws. backend/src/passport.ts:21-24 stores "" as the email of a Google account without one, and Home.tsx:227 masks it. | A Google profile with an empty email list: the stored email is "" | Show a masked value such as "xxxxx@" instead of throwing | not executed | HomePage.MaskEmail (Scenarios.EmaillessGoogleUserBreaksHome) | HomePage.MaskEmailTotal |
