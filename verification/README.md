# wavepipe: bcrypt login to the API

This project models how wavepipe's API logs a user in with a username and a
password (`BcryptAuth.Authenticate`). The function takes credentials from one of
two sources. If the request has an Authorization header, it uses the HTTP Basic
credentials in that header. Otherwise it uses the `u` and `p` query parameters.
It rejects a blank username, then a blank password. Next it loads the user
record by username. Last, it checks the password against the stored bcrypt hash.

Every outcome falls into exactly one class:
- the user is logged in;
- a client error, which the client can fix;
- a server error.

No session is ever issued.

The function has three collaborators, and each one is a parameter of the model:
- `Decoder` stands for the HTTP Basic decoder of section 2 of RFC 7617.
- `UserStore` stands for the lookup of a user by username. It reports `Found(hash)`, `NoRows` (the database's "no rows" error) or some other failure.
- `HashComparer` stands for bcrypt's comparison. It reports `Match`, `Mismatch` or some other failure.

The files:
- `http.dfy` (module `Http`): the parts of the request that the function reads. `Get` returns the first value stored under a key, or "".
- `data.dfy` (module `Data`): the `User` and `Session` records.
- `bcrypt_auth.dfy` (module `BcryptAuth`): the function itself and its properties.

`BcryptAuth.Authenticate` follows wavepipe's Go `BcryptAuth.Authenticate` branch by branch and returns its
four slots: user, session, client error and server error. `BcryptAuth.Outcome`
makes the same decision as a tagged result `Ok(user) | ClientError(e) |
ServerError(e)`. It is built from one function per step: `Resolve`, `RequireNonBlank`,
`LoadUser` and `CheckPassword`. The contract of `Outcome` says that the four-slot
form of its result is exactly the reply that `Authenticate` gives.

"Never consulted" is stated as independence. For example, two different
decoders give the same reply when the request has no Authorization header.

## Model

| member | source | states |
|---|---|---|
| `BcryptAuth.Authenticate` | api/auth/bcrypt.go:18-73 | Every reply is well shaped: the session is nil; the client and server errors are never both set; a user is returned exactly when both errors are nil; a client-class error sits only in the client slot and a server-class error only in the server slot |
| `BcryptAuth.Outcome` | api/auth/bcrypt.go:18-73 | The tagged result, written as four slots, is exactly the reply of `Authenticate` for every request and every behaviour of the three collaborators |
| `BcryptAuth.Resolve` | api/auth/bcrypt.go:23-39 | Credentials it returns are the ones the request carries (query `u`/`p` without a header, the decoder's answer with one); a failure is only a decoder rejection of a non-empty header, returned as a client error with the decoder's own cause |
| `BcryptAuth.RequireNonBlank` | api/auth/bcrypt.go:41-46 | Credentials pass unchanged exactly when both fields are non-blank; a blank username gives `ErrNoUsername` whatever the password; a non-blank username with a blank password gives `ErrNoPassword`; never a server error |
| `BcryptAuth.LoadUser` | api/auth/bcrypt.go:48-59 | Succeeds exactly when the lookup finds the user, returning the record keyed by that username with the stored hash; a client error exactly on "no rows", and it is "invalid username"; any other lookup failure is the server error with its cause |
| `BcryptAuth.CheckPassword` | api/auth/bcrypt.go:61-72 | Returns the loaded user exactly when bcrypt matches; a client error exactly on a mismatch, and it is "invalid password"; any other bcrypt failure is the server error with its cause |
| `BcryptAuth.Verify` | api/auth/bcrypt.go:41-72 | Given credentials, succeeds if and only if both are non-blank, the user is found and bcrypt matches, returning that user; blank username before blank password; "no rows" is "invalid username"; any other lookup failure is the server error with its cause; a bcrypt mismatch is "invalid password"; any other bcrypt failure is the server error with its cause |
| `BcryptAuth.AsReply` | api/auth/bcrypt.go:18-73 | Each tagged result maps to a well-shaped reply whose user, client-error and server-error slots are set exactly for `Ok`, `ClientError` and `ServerError`, and the set slot holds the result's own user or error |
| `BcryptAuth.FromReply` | api/auth/bcrypt.go:18-73 | Every well-shaped reply comes from a tagged result (its inverse) |
| `BcryptAuth.ReplyShape` | api/auth/bcrypt.go:18-73 | A reply is well shaped if and only if some tagged result stands for it, and no two tagged results share a reply |
| `BcryptAuth.OneSource` | api/auth/bcrypt.go:23-39 | The relation used by `Resolve`'s contract fixes its value: a request carries at most one pair of credentials, and never both a pair and a decoding failure |
| `BcryptAuth.QueryCredentials` | api/auth/bcrypt.go:24-28 | With an empty Authorization header, the reply is the one for the query's `u` and `p` taken verbatim |
| `BcryptAuth.DecoderNotConsulted` | api/auth/bcrypt.go:24-28 | With an empty Authorization header, the decoder does not affect the reply |
| `BcryptAuth.HeaderCredentials` | api/auth/bcrypt.go:29-39 | With a non-empty header, the reply is the one for the decoded credentials, or the decoder's error as the client error with user, session and server error nil |
| `BcryptAuth.QueryIgnored` | api/auth/bcrypt.go:29-39 | With a non-empty header, the query string does not affect the reply |
| `BcryptAuth.MissingUsername` | api/auth/bcrypt.go:42-43 | A blank username gives the client error `ErrNoUsername` whatever the password |
| `BcryptAuth.MissingPassword` | api/auth/bcrypt.go:44-45 | A non-blank username with a blank password gives the client error `ErrNoPassword` and no server error |
| `BcryptAuth.BlankNeverReachesBackend` | api/auth/bcrypt.go:41-51 | With either credential blank, the user store and bcrypt do not affect the reply |
| `BcryptAuth.LookupClassified` | api/auth/bcrypt.go:48-59 | A "no rows" lookup gives the client error "invalid username" and no server error; any other lookup failure is returned as the server error with no client error; neither consults bcrypt |
| `BcryptAuth.ComparisonClassified` | api/auth/bcrypt.go:61-72 | A mismatch gives the client error "invalid password"; any other bcrypt failure is returned as the server error; a match returns the loaded user with everything else nil |
| `BcryptAuth.AuthenticatedExactly` | api/auth/bcrypt.go:18-73 | A user is returned if and only if the request carries non-blank credentials whose user is found and whose password bcrypt matches, and the user returned is that loaded record |
| `BcryptAuth.PasswordDecides` | api/auth/bcrypt.go:61-72 | For a stored user whose hash is a well-formed bcrypt hash of a secret (the secret matches and bcrypt never fails on it), the secret logs in, no password gives a server error, and a password is refused, always as "invalid password", exactly when bcrypt reports a mismatch |
| `BcryptAuth.ClientErrorsOccur` | api/auth/bcrypt.go:18-73 | Each client error (decoding failure, missing username, missing password, invalid username, invalid password) is produced by some request and collaborators |
| `BcryptAuth.ServerErrorsOccur` | api/auth/bcrypt.go:51-69 | Each server error (lookup failure, bcrypt failure) is produced by some request and collaborators |
| `BcryptAuth.SuccessOccurs` | api/auth/bcrypt.go:71-72 | Every user with a non-blank username is returned by some request and collaborators |
| `BcryptAuth.AliceScenario` | api/auth/bcrypt.go:18-73 | Worked case with "alice" stored under a hash that bcrypt matches with "wonder" and not with "wrong", and "bob" unknown: `alice:wonder` logs in; `alice:wrong` gives "invalid password"; query `u=bob&p=x` gives "invalid username"; `alice:` gives "missing password" |

## Left out

- `basicCredentials` (base64 decoding and the `username:password` split) is not part of this model. It is the abstract `Decoder`, and its error becomes the client error unchanged (`Malformed(cause)`).
- `data.User.Load` and its SQL are not part of this model. The lookup is the abstract `UserStore`. Only the split between "no rows" and any other error is modelled. A loaded user is reduced to its username and stored hash.
- bcrypt's hashing, salt and cost factor are left out. The comparison is the abstract `HashComparer` with three outcomes. Go's conversion of both strings to byte slices is left implicit, because strings are compared as they are.
- PasswordDecides: does not promise that only the secret logs in, because bcrypt compares only the first 72 bytes of a password, so other passwords can match the same hash.
- Header-name canonicalisation and the parsing of the raw URL query are left out. The request holds already-parsed header and query maps, with canonical keys. `Get` returns the first value under a key, or "".
- The error values are data, not Go error identities. The Go code tells "no rows" and "mismatch" apart by identity (`==`). The model receives that distinction from the collaborators as `NoRows` and `Mismatch`.
- Falling back to the query parameters depends on the Authorization header's value being the empty string. A header that is absent and a header whose value is empty are treated the same, as in the Go code.
- `api/status.go` (the status HTTP handler) and `data/album_test.go` (a database integration test) are left out. They are transport and I/O code with no logic to prove.
- Concurrency, logging and session issuance are left out. The function is synchronous and never creates a session.
