# Credential forms, customer list and user list of the `myapp` React client

This project models the logic of the `myapp` React client. The rest of the client is JSX.

- **Sign-up and sign-in forms.** Both forms keep the same reducer state: the typed email, the typed password and four password-strength flags. On submit each runs an early-return guard chain.
  - Sign-up writes the credential pair to `document.cookie` and goes to `/`.
  - Sign-in reads the pair back out of the `document.cookie` text, compares it with what was typed, and goes to `/customer`.
- **Customer page.** It keeps the fetched customer list and a view of it narrowed by a case-insensitive search. A dialog appends a customer to both lists when its phone is not blank.
- **User page.**
  - On mount it parses `document.cookie` with `getCookie` and shows the stored pair as at most one row.
  - "Add User" overwrites both cookies and appends a row.
  - Each row's password can be shown or hidden.

Modules:

- `Wrappers`: `Option`.
- `Strings`: JavaScript's `indexOf`, `split`, `join`, `startsWith`, `includes`, `trim` and `toLowerCase`.
  - Both round trips of `split`/`join` are proved.
- `Validation`: the password tests `/[A-Z]/`, `/[a-z]/` and `/[!@#$%^&*]/`, and the email test `/^[^\s@]+@[^\s@]+\.[^\s@]+$/`.
  - The email test is an executable check.
  - It is proved equal to the language of the regular expression.
- `AuthForm`: the reducer, the initial state and the submit-button predicate.
  - `SignUp.tsx` and `SingIn.tsx` each carry an identical copy of these. The model defines them once.
- `Cookies`: the cookie jar as a `map` from names to values (a class, `CookieJar`, for the object `setCookie` writes in place). Also:
  - the `document.cookie` text that lists the jar, `Render`;
  - the row parsing shared by both readers.
- `SignUp`, `SignIn`: the two submit handlers.
  - Each returns an `Outcome`: the notice shown, or the route navigated to.
  - Sign-up also returns the new jar.
- `UserPage`:
  - `getCookie` and the mount projection;
  - the row toggle;
  - a class `UserList` with the page's state and its handlers.
- `CustomerPage`:
  - the search filter, with its order, membership and idempotence properties;
  - a class `CustomerList` whose `Valid()` invariant says the shown list is always a subsequence of the full list.
- `Session`: what one page sees of another through the jar.
  - Sign-up followed by sign-in.
  - "Add User" followed by a fresh mount of the user list.

## Model

| member | source | states |
|---|---|---|
| Strings.Contains | myapp/src/pages/Customer.tsx:76-78 | `includes` of the empty string is always true, and a match needs a term no longer than the text |
| Strings.StartsWith | myapp/src/components/Auth/SingIn.tsx:81 | `startsWith` holds exactly when the text is the prefix followed by some rest |
| Strings.Find | myapp/src/components/Auth/SingIn.tsx:82 | the first occurrence of the separator, or none anywhere |
| Strings.Split | myapp/src/pages/User.tsx:69-70 | `split` always yields at least one piece |
| Strings.SplitPiecesFree | myapp/src/pages/User.tsx:69-70 | no piece of a split contains the separator |
| Strings.Join | myapp/src/pages/User.tsx:71 | `join` starts with the first piece and puts the separator right after it when there is a second |
| Strings.JoinSplit | myapp/src/pages/User.tsx:70-71 | joining the pieces of a split with the same separator gives the text back |
| Strings.SplitJoin | myapp/src/pages/User.tsx:69 | splitting a join of separator-free pieces gives the pieces back, for a separator that cannot overlap itself |
| Strings.RestOfSplit | myapp/src/pages/User.tsx:70-71 | the first piece is the text before the first separator, and the remaining pieces re-joined are the text after it |
| Strings.BeforeFirstWhole | myapp/src/components/Auth/SingIn.tsx:82 | the text before the first `=` is the whole value exactly when the value has no `=` |
| Strings.TrimStart | myapp/src/pages/Customer.tsx:84 | removes exactly the leading white space |
| Strings.TrimEnd | myapp/src/pages/Customer.tsx:84 | removes exactly the trailing white space |
| Strings.Trim | myapp/src/pages/Customer.tsx:84 | `trim()` is a slice of the text with only white space on either side, and neither starts nor ends with white space |
| Strings.TrimEmptyIff | myapp/src/pages/Customer.tsx:84 | `trim()` is empty exactly when every character is white space |
| Strings.ToLower | myapp/src/pages/Customer.tsx:73-78 | `toLowerCase` keeps the length, maps every ASCII capital to its small letter, leaves no ASCII capital and changes no other character |
| Strings.Utf16Length | myapp/src/components/Auth/SignUp.tsx:46 | `.length` counts UTF-16 code units: at least one and at most two per character, exactly one per character for text within U+FFFF |
| Validation.Test | myapp/src/components/Auth/SignUp.tsx:47-49 | `test` is true exactly when some character of the string is in the class |
| Validation.Strength | myapp/src/components/Auth/SignUp.tsx:45-50 | each flag holds exactly when its requirement does: at least 8 UTF-16 code units, some `A`-`Z`, some `a`-`z`, some of `!@#$%^&*` |
| Validation.AstralCharactersCountTwice | myapp/src/components/Auth/SignUp.tsx:46 | `Aa!` followed by three emoji is six characters but nine code units, so it meets the length requirement |
| Validation.StrongWith | myapp/src/components/Auth/SignUp.tsx:45-50 | eight characters with an upper-case letter, a lower-case letter and a symbol meet every requirement |
| Validation.IsValidEmail | myapp/src/components/Auth/SignUp.tsx:71-72 | a passing address has no white space and a first `@` that is not its first character |
| Validation.ShapeIsValid | myapp/src/components/Auth/SignUp.tsx:71-72 | every `local@host.tld` string with `[^\s@]+` segments passes the email test |
| Validation.ValidHasShape | myapp/src/components/Auth/SignUp.tsx:71-72 | every string that passes the email test has that shape |
| Validation.EmailShapeIff | myapp/src/components/Auth/SignUp.tsx:71-72 | the email test accepts exactly the language of the regular expression |
| Validation.ExampleEmailValid | myapp/src/components/Auth/SignUp.tsx:71-72 | `a@b.com` passes |
| Validation.EmailNeedsAtAndDot | myapp/src/components/Auth/SignUp.tsx:71-72 | an address with no `@`, or with no `.` after it, fails |
| AuthForm.Reducer | myapp/src/components/Auth/SignUp.tsx:37-51 | an email edit changes only the email; a password edit stores the payload and recomputes the flags from it; agreement of the flags with the password is preserved |
| AuthForm.InitialConsistent | myapp/src/components/Auth/SignUp.tsx:22-31 | the initial all-false flags agree with the empty password |
| AuthForm.RunConsistent | myapp/src/components/Auth/SingIn.tsx:37-55 | every sequence of actions keeps the flags in agreement with the password |
| AuthForm.RunPassword | myapp/src/components/Auth/SignUp.tsx:39-44 | a run without password edits keeps the password, and a run that ends with a password edit leaves its payload |
| AuthForm.RunPasswordLastEdit | myapp/src/components/Auth/SignUp.tsx:39-44 | the password after a run is the payload of its last password edit, whatever email edits follow it |
| AuthForm.SubmitEnabled | myapp/src/components/Auth/SingIn.tsx:162-169 | when the flags agree with the password, the submit button is enabled exactly when the password meets all four requirements (the same code is at `SignUp.tsx:161-167`) |
| SignUp.HandleSignUp | myapp/src/components/Auth/SignUp.tsx:61-96 | each rejection happens exactly under its condition, in order (empty field, bad email, weak password), and leaves the jar unchanged; acceptance goes to `/` with both cookies written with the typed values and every other cookie kept |
| SignUp.SignUpAcceptsIff | myapp/src/components/Auth/SignUp.tsx:64-92 | on a reachable state sign-up succeeds exactly for an address of the email shape and a password of at least 8 UTF-16 code units with an upper-case letter, a lower-case letter and a symbol |
| SignUp.ExampleSignUp | myapp/src/components/Auth/SignUp.tsx:91-95 | typing `a@b.com` and `Abcdef1!` signs up and stores that pair |
| SignIn.FindRow | myapp/src/components/Auth/SingIn.tsx:81 | `find` returns the first row with the prefix, or none when no row has it |
| SignIn.SecondField | myapp/src/components/Auth/SingIn.tsx:82 | `split("=")[1]` exists exactly when the row has a `=`, and holds no `=` |
| SignIn.SecondFieldOfRow | myapp/src/components/Auth/SingIn.tsx:82 | for a row `name=rest`, `split("=")[1]` exists and is `rest` up to its first `=` |
| SignIn.StoredValue | myapp/src/components/Auth/SingIn.tsx:79-87 | absent when no row starts with `name=`; otherwise it is read from the first such row, up to the first `=` of its value |
| SignIn.HandleLogin | myapp/src/components/Auth/SingIn.tsx:61-97 | empty field, then bad email, are rejected exactly under their conditions; acceptance to `/customer` exactly when both stored values equal the typed ones; never the weak-password notice, and no jar is written |
| SignIn.ChecksPrecedeLookup | myapp/src/components/Auth/SingIn.tsx:66-77 | when a field check fails the cookie text cannot change the outcome |
| SignIn.MismatchIsGeneric | myapp/src/components/Auth/SingIn.tsx:89-96 | any mismatch of either value gives the single "invalid credentials" outcome |
| SignIn.StoredValueWhole | myapp/src/pages/User.tsx:70-71 | the corrected lookup reads all of the value after the first `=` |
| SignIn.HandleLoginWhole | myapp/src/components/Auth/SingIn.tsx:79-91 | sign-in with the corrected lookup; it agrees with `HandleLogin` on every field-check rejection |
| Cookies.KeyValueOfRow | myapp/src/pages/User.tsx:70-71 | a row's key is the text before its first `=` and its value all the text after it |
| Cookies.KeyValueOfEntry | myapp/src/pages/User.tsx:70-71 | the row written for a cookie whose name has no `=` gives that name and that value back, whatever `=` the value holds |
| Cookies.SplitRender | myapp/src/pages/User.tsx:69 | splitting the listed jar on `"; "` gives back exactly its rows |
| Cookies.SplitRenderEmpty | myapp/src/pages/User.tsx:69 | an empty jar reads as one empty row |
| UserPage.ReduceRows | myapp/src/pages/User.tsx:69-72 | the `reduce` yields its start value or the decoded value of some row with the key |
| UserPage.ReduceRowsLast | myapp/src/pages/User.tsx:69-72 | the `reduce` keeps its start value when no row has the key and otherwise yields the decoded value of the last row with it |
| UserPage.GetCookie | myapp/src/pages/User.tsx:68-73 | `""` when no row has the key; otherwise the decoded value of the last row with it |
| UserPage.MountRows | myapp/src/pages/User.tsx:36-45 | at most one row: the stored pair with its password hidden, present exactly when both cookies are non-empty |
| UserPage.ToggleAt | myapp/src/pages/User.tsx:75-80 | same length, every other row unchanged, the chosen row's visibility flipped |
| UserPage.ToggleOutOfRange | myapp/src/pages/User.tsx:75-80 | an index outside the list changes nothing |
| UserPage.ToggleTwice | myapp/src/pages/User.tsx:75-80 | toggling the same row twice restores the list |
| UserPage.SetCookie | myapp/src/pages/User.tsx:61-66 | the jar maps the name to the encoded value and nothing else changes |
| UserPage.UserList.constructor | myapp/src/pages/User.tsx:24-45 | the page starts with the mount projection of the cookie text, the dialog closed and the form blank |
| UserPage.UserList.HandleAddUser | myapp/src/pages/User.tsx:47-56 | both cookies are overwritten without any check, exactly one hidden row is appended after the unchanged old rows, and the dialog closes with a blank form |
| UserPage.UserList.HandleOpenDialog | myapp/src/pages/User.tsx:58 | opens the dialog and changes nothing else |
| UserPage.UserList.HandleCloseDialog | myapp/src/pages/User.tsx:59 | closes the dialog and changes nothing else |
| UserPage.UserList.ToggleShowPassword | myapp/src/pages/User.tsx:75-80 | the rows become the toggle of the old rows at the index |
| UserPage.UserList.EditEmail | myapp/src/pages/User.tsx:131-137 | sets the form's email and hides its password |
| UserPage.UserList.EditPassword | myapp/src/pages/User.tsx:144-150 | sets the form's password and hides it |
| UserPage.UserList.ToggleNewUserShowPassword | myapp/src/pages/User.tsx:154-159 | flips only the form's visibility flag |
| CustomerPage.Filter | myapp/src/pages/Customer.tsx:74 | `filter` never lengthens the list |
| CustomerPage.FilterSelects | myapp/src/pages/Customer.tsx:74-79 | the result is the input at exactly the positions whose element the callback keeps, in increasing order |
| CustomerPage.FilterIsSubsequence | myapp/src/pages/Customer.tsx:74-80 | the search result is a subsequence of the customers, in their original order |
| CustomerPage.FilterMembership | myapp/src/pages/Customer.tsx:74-79 | an element is in the result exactly when it is in the input and kept |
| CustomerPage.FilterMembershipAll | myapp/src/pages/Customer.tsx:74-79 | the same, for every element at once |
| CustomerPage.FilterKeeps | myapp/src/pages/Customer.tsx:74-79 | every element of the result is kept |
| CustomerPage.FilterAll | myapp/src/pages/Customer.tsx:74-79 | a callback that keeps everything returns the input |
| CustomerPage.Matches | myapp/src/pages/Customer.tsx:75-78 | every customer matches the empty term, and a match needs a term no longer than one of the three fields |
| CustomerPage.Search | myapp/src/pages/Customer.tsx:73-79 | a customer is in the search result exactly when it is in the list and matches the lowercased term |
| CustomerPage.SearchMembership | myapp/src/pages/Customer.tsx:73-79 | a customer is shown exactly when it is in the list and the lowercased term occurs in its lowercased name, surname or email |
| CustomerPage.SearchEmptyTerm | myapp/src/pages/Customer.tsx:73-79 | an empty term shows every customer |
| CustomerPage.FilterIdempotent | myapp/src/pages/Customer.tsx:71-81 | filtering the result again with the same term changes nothing |
| CustomerPage.FilterConcat | myapp/src/pages/Customer.tsx:74-79 | filtering distributes over concatenation |
| CustomerPage.FilterAppend | myapp/src/pages/Customer.tsx:88-90 | appending a customer extends the search result by it exactly when it matches |
| CustomerPage.SubsequenceRefl | myapp/src/pages/Customer.tsx:62-63 | the list the fetch stores in both lists is a subsequence of itself |
| CustomerPage.SubsequenceAppend | myapp/src/pages/Customer.tsx:89-90 | appending the same customer to both lists preserves the subsequence relation |
| CustomerPage.CustomerList.constructor | myapp/src/pages/Customer.tsx:26-41 | after the fetch both lists hold the fetched customers, the term is empty, the dialog closed, the form blank and no phone error |
| CustomerPage.CustomerList.HandleSearch | myapp/src/pages/Customer.tsx:71-81 | stores the term and shows the full list filtered by it; the full list, dialog, form and error are unchanged |
| CustomerPage.CustomerList.HandleAddCustomer | myapp/src/pages/Customer.tsx:83-95 | a phone blank after trimming only raises the error; otherwise the form's customer with the fresh id is appended to both lists, and the dialog closes with a blank form and no error |
| CustomerPage.CustomerList.HandleOpenDialog | myapp/src/pages/Customer.tsx:97 | opens the dialog and changes nothing else |
| CustomerPage.CustomerList.HandleCloseDialog | myapp/src/pages/Customer.tsx:98-101 | closes the dialog and clears the phone error without touching the lists or the form |
| CustomerPage.CustomerList.EditName | myapp/src/pages/Customer.tsx:164-166 | sets only the form's name |
| CustomerPage.CustomerList.EditSurname | myapp/src/pages/Customer.tsx:174-176 | sets only the form's surname |
| CustomerPage.CustomerList.EditPhone | myapp/src/pages/Customer.tsx:186-189 | sets the form's phone and clears the phone error, without touching the lists |
| CustomerPage.CustomerList.EditEmail | myapp/src/pages/Customer.tsx:197-199 | sets only the form's email |
| Session.KeyedRowPrefix | myapp/src/components/Auth/SingIn.tsx:81 | for `=`-free names a cookie's row starts with `name=` exactly when the cookie is `name` |
| Session.StoredValueOfJar | myapp/src/components/Auth/SingIn.tsx:79-87 | on a listed jar sign-in's lookup finds the cookie and reads it up to its first `=`; the corrected lookup reads it whole |
| Session.GetCookieOfJar | myapp/src/pages/User.tsx:68-73 | on a listed jar `getCookie` gives the decoded value of the cookie, or `""` when the jar lacks it |
| Session.SignUpThenSignIn | myapp/src/components/Auth/SingIn.tsx:79-91 | after a successful sign-up, sign-in with the same pair succeeds exactly when neither value contains `=`; with the corrected lookup it always succeeds; both on the jar as written, before any browser trimming |
| Session.EqualsSignAccountSignsUp | myapp/src/components/Auth/SignUp.tsx:64-92 | `a@b.com` with `Abcdef1!=` passes every sign-up check |
| Session.SignInRefusesEqualsSign | myapp/src/components/Auth/SingIn.tsx:82-96 | that account, just signed up, is refused with "invalid credentials" |
| Session.AddUserThenRemount | myapp/src/pages/User.tsx:36-56 | after "Add User", a fresh mount whose decoding undoes the encoding shows exactly the added pair, when both halves are non-empty |

## Left out

- The `axios` fetch of random users and the loading flag (`Customer.tsx:47-69`). They are network I/O. `CustomerList.constructor` takes the fetched list as a parameter; a failed fetch is the empty list.
- Toast notices and `navigate`. They are recorded only as the `Reason` of a rejection and the `target` of an acceptance.
- Cookie attributes: `path`, `expires` and the `Date.now()` expiry arithmetic (`User.tsx:61-66`).
  - The jar is a map from names to values.
  - `document.cookie` is the text `Render` lists the jar as, in some order.
  - The browser's own parsing of a raw value that itself contains `;` is not modelled. The end-to-end lemmas require rows without `"; "`.
- SignUp.HandleSignUp: the new jar maps each name to the value exactly as the handler writes it. A browser strips spaces and tabs around a written cookie value and cuts it at the first `;` (section 5.2 of RFC 6265), so the value it stores equals the typed one only for values without those.
- Session.SignUpThenSignIn: it starts from the jar `HandleSignUp` returns, so its iff and its corrected-lookup acceptance hold in the browser only for an address and a password with no leading or trailing space or tab and no `;`. For example, a password ` Abcdef1!` passes sign-up, is stored by the browser as `Abcdef1!`, and is then refused by sign-in, which this model does not show.
- `encodeURIComponent` and `decodeURIComponent`: they are function parameters. That `decodeURIComponent` can throw on a malformed escape is not modelled.
- `Date.now().toString()` as a customer id (`Customer.tsx:88`). The id is the parameter `newId`.
- Unicode case mapping: `toLowerCase` is modelled on ASCII letters only. White space for `trim` and `\s` is the full ECMAScript set of white-space and line-terminator characters. The password length is counted in UTF-16 code units, as `.length` counts it. Substring search, `split` and `startsWith` work on characters. For well-formed text this agrees with JavaScript's code-unit operations, because a match in UTF-16 never starts or ends inside a surrogate pair. Lone surrogates are not modelled.
- The reducer's `default` branch (`SignUp.tsx:52-53`). The two action types the component dispatches are the only constructors of `Action`, so that branch cannot be taken.
- JSX rendering, MUI dialogs, the sidebar toggle, `App.tsx` and `Sidebar.tsx`. They contain no logic beyond layout and routing.
- React's batching of state updates: each handler is one method call that performs its updates in order.
- `CustomerPage.Filter`: its own contract states only the length bound; membership and order are proved in the lemmas beside it.

## Findings

| source | as written | input that shows it | evidently intended | confidence | as-written member | corrected member |
|---|---|---|---|---|---|---|
| myapp/src/components/Auth/SingIn.tsx:82 | the stored value is `row.split("=")[1]`, which is only the text up to a second `=`. Yet sign-up accepts and stores `=` in either value | sign up as `a@b.com` with password `Abcdef1!=`. Sign-in then compares `Abcdef1!=` with `Abcdef1!` and reports invalid credentials | read everything after the first `=`, as `getCookie` in `User.tsx:70-71` does, so that every pair sign-up stores unchanged can sign in (the browser-side trimming under "## Left out" is a separate gap) | not executed | Session.SignInRefusesEqualsSign | SignIn.HandleLoginWhole |
