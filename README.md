# UNSW Market: e-mail allow-list and image-upload naming

UNSW Market is a mobile marketplace client whose only self-contained logic lives
in `lib/supabase.ts`. This project models that logic in Dafny and proves what it
does:

- `isUNSWEmail`, the sign-in gate. It takes the text between the first and the
  second `@` of an address, lower-cases it, and accepts the address iff that
  text is exactly `unsw.edu.au`, `student.unsw.edu.au` or `ad.unsw.edu.au`.
  A development build accepts every string.
- The pure part of `uploadImage`, the storage upload of a listing photo. It
  derives the file extension from the image URI, the object path
  `userId/timestamp.ext`, the MIME type, and the file name sent in the form. It
  also builds the upload URL and the public URL of the `post-images` bucket.
  Whether the call yields the public URL or `null` is a function of the session
  lookup and of the upload response.

The model has two modules:

- `JsString` (`js_string.dfy`) models the JavaScript string built-ins the code
  uses: `toLowerCase` (ASCII), `split` on one character with `join` as its
  inverse, `pop`, and the decimal rendering of a millisecond timestamp.
- `Supabase` (`supabase.dfy`) models the two exported functions.

Everything is a pure function. The development flag `__DEV__`, the clock
`Date.now()`, the project URL `EXPO_PUBLIC_SUPABASE_URL` and the outcomes of
the two awaited calls are parameters. An awaited call's outcome is `Effect`:
it threw, or it returned yes/no. `UploadImage` returns an `UploadTrace` with
the request it sent (if any) and the value it resolves to. JavaScript's
`undefined` and `null` are `Option.None`.

Two consequences of the code as written are proved rather than assumed away.
The extension is the text after the last `.`, even when a `/` follows it, so a
URI such as `content://media.provider/images/123` gives the extension
`provider/images/123` (`ExtMayHoldSlash`). The object path is unique only per
millisecond (`UploadUrlCollision`): two images of one user with the same
extension whose uploads read the same `Date.now()`, as uploads started together
can, are posted to the same object. The request asks the storage service not to
overwrite (`x-upsert: false`); whether the service then refuses the second POST
is the service's behaviour, which the model leaves open: the upload response is
a parameter.

## Model

| member | source | states |
|---|---|---|
| `JsString.Lower` | lib/supabase.ts:23 | `toLowerCase` keeps the length, turns each upper-case letter into the letter 32 code points above it, keeps every other character, and leaves no upper-case letter |
| `JsString.LowerIdempotent` | lib/supabase.ts:23 | lower-casing an already lower-cased string changes nothing |
| `JsString.LowerKeepsNonLetter` | lib/supabase.ts:40 | a non-letter such as `.` or `@` occurs after lower-casing iff it occurred before |
| `JsString.Split` | lib/supabase.ts:23 | `split(sep)` never returns an empty array, so `[0]` and `pop()` always find a piece |
| `JsString.SplitCount` | lib/supabase.ts:23 | `split(sep)` returns one more piece than there are separators, so `[1]` exists iff the string holds the separator |
| `JsString.SplitPiecesSepFree` | lib/supabase.ts:40 | no piece of `split(sep)` holds the separator |
| `JsString.SplitNoSep` | lib/supabase.ts:23 | a string without the separator splits into itself alone |
| `JsString.SplitConcat` | lib/supabase.ts:40 | splitting at one separator splits the text on each side independently |
| `JsString.JoinSplit` | lib/supabase.ts:40 | joining the pieces of a split with the separator gives back the original string |
| `JsString.SplitJoin` | lib/supabase.ts:40 | splitting a join of separator-free pieces gives back the pieces |
| `JsString.SplitFirst` | lib/supabase.ts:23 | the first piece is the text before the first separator, and the other pieces are the split of what follows it |
| `JsString.SplitLast` | lib/supabase.ts:40 | `pop()` of a split is the text after the last separator |
| `JsString.Last` | lib/supabase.ts:40 | `pop()` returns an element of the array, and the array is the rest followed by that element |
| `JsString.Decimal` | lib/supabase.ts:41 | the timestamp is rendered as a non-empty string of decimal digits with no leading zero |
| `JsString.DecimalRoundTrip` | lib/supabase.ts:41 | reading the rendered timestamp back as a decimal gives the timestamp |
| `JsString.DecimalInjective` | lib/supabase.ts:41 | distinct timestamps render differently |
| `Supabase.EmailDomain` | lib/supabase.ts:23 | `split('@')[1]` is defined iff the address holds an `@` |
| `Supabase.IsUnswEmail` | lib/supabase.ts:18-25 | with the development flag every string is accepted; without it a string with no `@` is rejected |
| `Supabase.AddressSplitExists` | lib/supabase.ts:23 | every string holding `@` is a local part, `@`, an `@`-free domain, and an empty or `@`-led rest, so the lemmas below cover every address |
| `Supabase.DomainIsSecondSegment` | lib/supabase.ts:23 | the domain examined is the lower-cased text between the first and the second `@` |
| `Supabase.NonDevAcceptance` | lib/supabase.ts:22-24 | outside development an address is accepted iff its lower-cased second `@`-segment is one of the three listed domains; the local part and anything from a second `@` on are ignored |
| `Supabase.CaseInsensitive` | lib/supabase.ts:23 | lower-casing the whole address never changes the verdict, in either mode |
| `Supabase.SubdomainListed` | lib/supabase.ts:22 | a sub-domain of `unsw.edu.au` is on the list iff it is `student.` or `ad.` (ignoring case) |
| `Supabase.SubdomainRejected` | lib/supabase.ts:22-24 | any other sub-domain of `unsw.edu.au`, such as `cse.unsw.edu.au`, is rejected: no suffix match |
| `Supabase.ExtendedDomainUnlisted` | lib/supabase.ts:22 | `unsw.edu.au` followed by more text is not on the list |
| `Supabase.ExtendedDomainRejected` | lib/supabase.ts:22-24 | an address whose domain only starts with `unsw.edu.au`, such as `unsw.edu.au.evil.com`, is rejected |
| `Supabase.ListedDomainsAccepted` | lib/supabase.ts:22-24 | each listed domain is accepted after any `@`-free local part |
| `Supabase.MixedCaseAccepted` | lib/supabase.ts:23 | `Student.UNSW.edu.au` is accepted |
| `Supabase.SecondAtIgnored` | lib/supabase.ts:23 | `local@unsw.edu.au@anything` is accepted |
| `Supabase.FacultySubdomainRejected` | lib/supabase.ts:22-24 | `x@cse.unsw.edu.au` is rejected |
| `Supabase.LookAlikeRejected` | lib/supabase.ts:22-24 | `x@unsw.edu.au.evil.com` is rejected |
| `Supabase.FileExt` | lib/supabase.ts:40 | the extension is never empty, holds no `.` and no upper-case letter |
| `Supabase.ExtMayHoldSlash` | lib/supabase.ts:40-42 | when a `/` follows the last `.` of the URI (`content://media.provider/images/123`), the extension and the content type's subtype hold that `/` |
| `Supabase.ExtAfterLastDot` | lib/supabase.ts:40 | the extension is the lower-cased text after the last `.`, or `jpg` when that text is empty |
| `Supabase.ExtWithoutDot` | lib/supabase.ts:40 | a URI with no `.` yields the whole URI lower-cased (`jpg` for the empty URI) |
| `Supabase.ObjectPath` | lib/supabase.ts:41 | the object path lies in the user's folder `userId/` and ends with `.ext` |
| `Supabase.ObjectPathDistinctTimes` | lib/supabase.ts:41 | for one user and any extension, uploads at different milliseconds get different object paths |
| `Supabase.ContentType` | lib/supabase.ts:42 | the content type is `image/jpeg` for `jpg` and `image/` followed by the extension itself for every other extension, so the subtype is non-empty iff the extension is |
| `Supabase.ContentTypeJpeg` | lib/supabase.ts:42 | the type is `image/jpeg` exactly for the extensions `jpg` and `jpeg` |
| `Supabase.ContentTypeDistinguishes` | lib/supabase.ts:42 | two extensions get the same type iff they are equal or both spell JPEG |
| `Supabase.JoinEndsWithLast` | lib/supabase.ts:48 | a joined string ends with its last piece, preceded by the separator when there are several pieces |
| `Supabase.FormFileName` | lib/supabase.ts:48 | the form file name is the longest `/`-free suffix of the path: the whole path, or the text after its last `/` |
| `Supabase.FormFileNameOfObjectPath` | lib/supabase.ts:41-48 | when the extension has no `/`, the form file name is `timestamp.ext`, whatever the user id |
| `Supabase.UploadUrl` | lib/supabase.ts:53 | the upload URL is the configured base, then `/storage/v1/object/post-images/`, then the object path |
| `Supabase.PublicUrl` | lib/supabase.ts:71 | the public URL is the configured base, then `/storage/v1/object/public/post-images/`, then the object path |
| `Supabase.UploadUrlInjective` | lib/supabase.ts:53 | under one base URL, two upload URLs are equal iff their object paths are |
| `Supabase.PublicUrlInjective` | lib/supabase.ts:71 | under one base URL, two public URLs are equal iff their object paths are |
| `Supabase.PublicUrlIsNotUploadUrl` | lib/supabase.ts:53-71 | under one base URL, no public URL is an upload URL |
| `Supabase.UploadImage` | lib/supabase.ts:28-76 | a request is sent iff a session was found; the public URL is returned iff a session was found and the response was OK; a thrown error, no session or a non-OK response give `null` |
| `Supabase.UploadRequestContents` | lib/supabase.ts:40-62 | whatever the response, a sent request goes to the upload URL of `userId/timestamp.ext`, names the file with the text after the last `/` of that URL, and carries the original URI and the derived content type |
| `Supabase.UploadUrlCollision` | lib/supabase.ts:40-53 | two uploads by one user whose URIs give the same extension post to the same URL iff they read the same millisecond |
| `Supabase.UploadPublishesPostedObject` | lib/supabase.ts:40-71 | on success the upload URL and the returned public URL carry the same path `userId/timestamp.ext` after their fixed prefixes; the returned URL ends with the form file name; the form carries the original URI and the derived content type |
| `Supabase.UploadFormName` | lib/supabase.ts:48 | when the derived extension has no `/`, the uploaded form names the file `timestamp.ext` |

## Left out

- Construction of the Supabase client and its auth options (lib/supabase.ts:8-15): this configures an external SDK.
- The session fetch, the `FormData` object, the POST with its `Authorization` and `x-upsert` headers, reading the error body, and the `console.error` logging in `uploadImage`: these are network and SDK I/O. Only their outcomes are modelled, as `Effect` parameters.
- Lower: models ASCII lower-casing only; JavaScript's `toLowerCase` also maps non-ASCII letters, which the model leaves unchanged.
- Decimal: models the rendering of a non-negative integer. JavaScript switches to exponent notation from 10^21 on, far beyond any `Date.now()` value.
- The alert in the sign-in screen names only two of the three accepted domains. That is user-facing text, not part of the check.
- The React screens, the theme constants and the database type declarations: these are UI and type declarations with no behaviour to model.
