# Grocery app: registration and login core

This project models the account core of the Grocery app in Dafny and proves properties of the model.

- **`AuthService`** (`Grocery.Core/Services/AuthService.cs`).
  - `Login` looks a client up by email and returns it only when the stored password digest verifies the given password.
  - `Register` refuses an email that is already stored. Otherwise it hashes the password and adds `Client(0, name, email, digest)`.
- **`RegisterViewModel`** (`Grocery.App/ViewModels/RegisterViewModel.cs`).
  - `ValidateInput` checks eight input rules in a fixed order and reports the first one broken.
  - `IsValidEmail` matches `^[^@\s]+@[^@\s]+\.[^@\s]+$`.
  - The `Register` command resets its messages, validates, calls `AuthService.Register`, and shows either the success text or the "email in use" text.

Files:

- `wrappers.dfy`: `Option`, for the source's nullable `Client?`.
- `hashing.dfy` (module `Hashing`): a stand-in for `PasswordHelper` and its salt source.
- `auth.dfy` (module `Auth`): `Client`, the store, spec functions `LoginResult`/`RegisterResult`, their lemmas, and class `AuthService`.
- `registration.dfy` (module `Registration`): whitespace, the email pattern, the rules, and class `RegisterViewModel`.

The client store behind `IClientService.Get`/`Add` is the field `AuthService.clients : map<string, Client>`, keyed by email. `Get` is an exact-match lookup.

`PasswordHelper` is not part of this model. `Hashing` replaces it with a concrete hasher. The hasher has these properties, which the repository's tests assert:
- a digest verifies against its own password;
- it does not verify against any other password;
- a digest differs from its plaintext;
- digests made with different salts differ.

The tests also assert that a digest is longer than 50 characters; the stand-in lacks that property. The stand-in's digest is longer than its password for every password, but that bound belongs to the stand-in, not to the real hasher (see "## Left out").

The digest is `"<salt>$<derived key>"`. The derived key rotates characters by the salt. Class `PasswordHasher` draws a new salt on every `HashPassword` call from the counter `issued`. That is why `HashPassword` is a method: two calls on one password return different strings. The `Auth` proofs use only the lemmas `VerifyHashed` and `RejectWrongPassword` and the length bound on `Digest`.

Where the code differs from what the tests expect, or from what one would assume, the model follows the code:

- The name-length rule uses the untrimmed `Name.Length`, not the trimmed length (`UntrimmedNameLengthCounts`).
- The password rule rejects an all-whitespace password as "required", not only an empty one (`BlankPasswordIsRequired`).
- Lengths are C# `String.Length`, counted in UTF-16 code units (`Utf16Length`, `AstralNameIsLongEnough`).
- The .NET `$` also matches before one final line feed, so `"a@b.c\n"` is a valid email (`TrailingLineFeedAccepted`).
- `AuthService.Register` does not validate its input. Tests `TestCore/UC09A3SimpleTests.cs:350-374` and `TestCore/UC09RegistrationTests.cs:81-102` expect it to reject empty or short input. Only the view model's `Register` command rejects such input (`OnlyTheFormRejectsAnEmptyName`).

## Model

| member | source | states |
|---|---|---|
| `Hashing.Digest` | TestCore/UC09A3SimpleTests.cs:171-173 | a digest never equals its plaintext; in this stand-in it is also longer than the password |
| `Hashing.VerifyPassword` | Grocery.Core/Services/AuthService.cs:18 | only a well-formed digest, one that parses into a salt and a derived key, can verify a password |
| `Hashing.VerifyHashed` | TestCore/UC09RegistrationTests.cs:114-117 | a digest verifies against the password it was made from |
| `Hashing.RejectWrongPassword` | TestCore/UC09RegistrationTests.cs:118-119 | a digest does not verify against any password other than its own |
| `Hashing.DistinctDigests` | TestCore/UC09A3SimpleTests.cs:209-213 | digests made with different salts differ, and with one salt, different passwords give different digests |
| `Hashing.MalformedDigestRejected` | Grocery.Core/Services/AuthService.cs:18 | verification is total; a stored password without the digest separator verifies no password |
| `Hashing.PasswordHasher.HashPassword` | Grocery.Core/Services/AuthService.cs:31 | each call draws a salt this hasher has never drawn and returns that salt's digest of the password |
| `Auth.Get` | Grocery.Core/Services/AuthService.cs:16-25 | the lookup finds a client exactly when one is stored under the email, and then it is that client |
| `Auth.LoginResult` | Grocery.Core/Services/AuthService.cs:14-20 | login yields a client exactly when one is stored under the email and its digest verifies the password, and then it is that stored client; unknown email and wrong password both yield none |
| `Auth.AuthService.Login` | Grocery.Core/Services/AuthService.cs:14-20 | the method returns what `LoginResult` gives for the current store and changes nothing |
| `Auth.RegisterResult` | Grocery.Core/Services/AuthService.cs:22-40 | registration is accepted exactly when the email is absent; a refusal keeps the store; an acceptance adds exactly the key `email`, with `Client(0, name, email, digest)`, and keeps every existing entry |
| `Auth.AuthService.Register` | Grocery.Core/Services/AuthService.cs:22-40 | the result and new store are those of `RegisterResult` with the salt the hasher draws; a refused call draws no salt; a store keyed by email stays keyed by email |
| `Auth.AuthService.constructor` | Grocery.Core/Services/AuthService.cs:10-13 | the service starts on the given store and hasher; the store must keep every client under its own email, as a lookup by email returns a client with that email |
| `Auth.RegisteredPasswordIsHashed` | Grocery.Core/Services/AuthService.cs:31-34 | the stored password is not the plaintext, is longer than it, verifies against it and against no other password |
| `Auth.RegisterKeepsKeyedByEmail` | Grocery.Core/Services/AuthService.cs:25-37 | registration keeps every client stored under its own email, so at most one client per email |
| `Auth.SecondRegistrationRefused` | Grocery.Core/Services/AuthService.cs:25-28 | registering one email twice: the second call is refused, the store is unchanged and the first name is kept |
| `Auth.LoginAfterRegister` | Grocery.Core/Services/AuthService.cs:14-39 | after a successful registration, login with that password returns the new client, and any other password gives none |
| `Auth.RegisterKeepsOtherLogins` | Grocery.Core/Services/AuthService.cs:34-37 | registration leaves the login outcome for every other email unchanged |
| `Registration.IsWhiteSpace` | Grocery.App/ViewModels/RegisterViewModel.cs:105-171 | the characters `char.IsWhiteSpace` and the regex class `\s` accept: U+0009..U+000D, U+0085 and the Unicode space, line and paragraph separators |
| `Registration.IsBlank` | Grocery.App/ViewModels/RegisterViewModel.cs:105-150 | `string.IsNullOrWhiteSpace` on a non-null string: empty or made only of whitespace |
| `Registration.Utf16Length` | Grocery.App/ViewModels/RegisterViewModel.cs:112 | C# string length lies between the number of characters and twice that number |
| `Registration.IsValidEmail` | Grocery.App/ViewModels/RegisterViewModel.cs:167-178 | total, and true exactly when the text matches the regex, including the match before a final line feed |
| `Registration.EmailShapeIsPattern` | Grocery.App/ViewModels/RegisterViewModel.cs:171 | the regex body holds exactly when there is one '@', not first, no whitespace, and a '.' after the '@' with a character on each side |
| `Registration.TrailingLineFeedAccepted` | Grocery.App/ViewModels/RegisterViewModel.cs:171-172 | `"a@b.c\n"` is accepted although it contains whitespace |
| `Registration.FirstViolation` | Grocery.App/ViewModels/RegisterViewModel.cs:102-165 | the decision of `ValidateInput`: a rule it reports is really broken by the form |
| `Registration.Message` | Grocery.App/ViewModels/RegisterViewModel.cs:105-162 | each rule's error text is non-empty and differs from the command's success text (:64) and "email in use" text (:73) |
| `Registration.MessagesDistinct` | Grocery.App/ViewModels/RegisterViewModel.cs:105-162 | different rules show different texts, so the text shown names the failed rule |
| `Registration.FirstViolationIsEarliest` | Grocery.App/ViewModels/RegisterViewModel.cs:102-165 | the rule reported is exactly the broken rule that no earlier broken rule precedes, in the order name required, name short, email required, email format, password required, password short, confirmation required, mismatch |
| `Registration.NoViolationMeansAllRulesPass` | Grocery.App/ViewModels/RegisterViewModel.cs:102-165 | validation passes exactly when none of the eight rules is broken |
| `Registration.UntrimmedNameLengthCounts` | Grocery.App/ViewModels/RegisterViewModel.cs:105-117 | the name " A" passes both name rules because its untrimmed length is 2 |
| `Registration.AstralNameIsLongEnough` | Grocery.App/ViewModels/RegisterViewModel.cs:112-117 | a one-character name outside the Basic Multilingual Plane has length 2 and passes |
| `Registration.BlankPasswordIsRequired` | Grocery.App/ViewModels/RegisterViewModel.cs:135-147 | a six-space password is reported as missing, not as too short |
| `Registration.OnlyTheFormRejectsAnEmptyName` | Grocery.App/ViewModels/RegisterViewModel.cs:54-60 | AuthService accepts an empty name; the form reports "name required" before AuthService is called |
| `Registration.RegisterViewModel.constructor` | Grocery.App/ViewModels/RegisterViewModel.cs:14-42 | all fields start empty and both flags false |
| `Registration.RegisterViewModel.ValidateInput` | Grocery.App/ViewModels/RegisterViewModel.cs:102-165 | answers true exactly when no rule is broken, and then leaves message and flag as they were; otherwise shows the first broken rule's message and sets the error flag |
| `Registration.RegisterViewModel.Register` | Grocery.App/ViewModels/RegisterViewModel.cs:45-75 | an invalid form never reaches AuthService: store and salt source unchanged, rule message shown, error flag set and success flag clear. A valid form passes name, email and password, not the confirmation; the salt source advances only on acceptance. Success text (:64) or "email in use" text (:73) follows AuthService's answer, and exactly one flag is set |

## Left out

- `PasswordHelper`: its PBKDF2 derivation, random salt, digest format and constant-time comparison are replaced by the stand-in in `Hashing`. The stand-in's derived key is reversible, so the one-way property is not modelled.
- `Hashing.Digest`: the bound "longer than the password" comes from the stand-in, whose digest grows with the password. A PBKDF2 digest has a fixed length. The tests' bound "longer than 50 characters" (`TestCore/UC09A3SimpleTests.cs:216`, `TestCore/UC09RegistrationTests.cs:115`) is not modelled; `Digest(0, "TestPassword123")` has 17 characters.
- `Auth.RegisteredPasswordIsHashed`: its clause "longer than the password" holds of the stand-in only, for the same reason. The source's tests check it for one password (`TestCore/UC09A3SimpleTests.cs:173`).
- `Hashing.PasswordHasher.HashPassword`: salts come from a counter, so one hasher never repeats a salt. The source's random salts are only distinct with overwhelming probability. The source's static `PasswordHelper` shares one salt source across the program; the model has one hasher object per `AuthService`. Two hasher objects, or a write to the public field `issued`, repeat salts.
- `ClientService`/`ClientRepository` persistence is replaced by a map keyed by email. Id assignment by `Add`, `Add`'s return value and storage failures are left out.
- `GoToLogin`, `Task.Delay(2000)` and navigation after a successful registration are left out, as are `Application.Current.MainPage` and `IServiceProvider`.
- `Registration.RegisterViewModel.Register`: "exactly one flag is set" holds only for the synchronous part. A failed `GoToLogin` later also sets `HasError`.
- `LoginViewModel` is left out. It is a single branch on `AuthService.Login` plus navigation.
- Null strings are not modelled. The bound fields start as `string.Empty`.
- The `catch` in `IsValidEmail` can never fire for the constant pattern. The model's `IsValidEmail` is total.
- Concurrent registrations of one email (the check-then-add race) are not modelled. Calls are sequential.
