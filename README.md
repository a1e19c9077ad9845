# A verified model of the microseg front end

The front end lets a user sign in, upload microscope images, pick one from a
library, send it for analysis and look at the result. When a graphene flake of the analysis
is clicked, the layer panel reports the bounding box of the flake's run-length
encoded mask to its `onFlakeSelect` callback.
This project models the parts of that front end that compute something, and
proves what they compute. There is one Dafny module per source file.

- `LayerInfo` (components/LayerInfo.js) covers `decodeRLE` and the two
  selection handlers of the layer panel. `decodeRLE` paints the RLE runs into a
  zeroed `height * width` grid, then scans the grid row by row for the
  extremes of the set cells.
  - The fill is modelled as the method `FillMask` with its inner loop
    `PaintRun`, proved against the reference decoding `Decoded`.
  - The scan is `ScanBoundingBox`, proved against the predicate `IsBoxOf`: the
    tight box that lies inside the grid, or the degenerate box when no cell
    is set.
  - The selection state is the class `Selection`.
- `MainPage` (components/MainPage.js) covers three things:
  - the pixel loop of `drawProcessedImage`, which fills an RGBA buffer
    (`FillImageData`) through the clamping of a `Uint8ClampedArray`;
  - the filter and sort of `loadImages`, and the name shown for a key;
  - the state resets of the page, as the class `Gallery`.
- `ResetPassword` (components/auth/ResetPassword.js) covers `validatePassword`,
  the guard chain of `handleSubmit` and the `trim` of the email.
- `AuthContainer` (components/auth/AuthContainer.js) covers the form
  navigation: the history stack pushed by `updateFormState` and popped by the
  back button, the data rewrites of `switchForm`, and the `signUp` pre-checks.
  Its state is the class `Container`.
- `Verify` (components/auth/Verify.js) covers `getEmailDisplay`.
- `Wrappers` holds `Option` and `Result`.

JavaScript values are modelled as follows:

- Numbers are unbounded integers.
- Timestamps are integers.
- Strings are sequences of characters.
- An image is a sequence of rows of pixels of channel values.
- Network answers appear as `Result` parameters of the methods that consume them.

## Model

| member | source | states |
|---|---|---|
| LayerInfo.Runs | my-app/src/components/LayerInfo.js:11-13 | the loop steps over the list two elements at a time: there are as many runs as whole pairs (twice the number of runs is the list length, or one less), so a trailing odd element forms none; RunAt gives each run |
| LayerInfo.RunAt | my-app/src/components/LayerInfo.js:11-13 | Run k of the list is the pair `rle[2k]`, `rle[2k+1]`; a trailing odd element forms no run |
| LayerInfo.PaintRun | my-app/src/components/LayerInfo.js:14-16 | the cells of one run that lie in the grid become 1; every other cell keeps its value |
| LayerInfo.FillMask | my-app/src/components/LayerInfo.js:8-17 | the filled grid has `height*width` cells; cell i is 1 exactly when i lies in some run `[start, start+length)`, otherwise 0 |
| LayerInfo.OverlayDecoded | my-app/src/components/LayerInfo.js:11-17 | painting one more run over the decoding of the earlier runs gives the decoding of all of them |
| LayerInfo.ScanUpToTight | my-app/src/components/LayerInfo.js:20-30 | at every point of the row-major scan, the running `minX, minY, maxX, maxY` enclose every set cell met so far, and each is reached by one of them (or they still hold their start values if none was met) |
| LayerInfo.ScanFindsBox | my-app/src/components/LayerInfo.js:20-37 | after the whole scan, the returned `{x: minX, y: minY, width: maxX-minX+1, height: maxY-minY+1}` is the bounding box of the mask |
| LayerInfo.ScanBoundingBox | my-app/src/components/LayerInfo.js:20-37 | for a non-empty mask the result encloses every set cell, touches a set cell on each of its four edges, has width and height at least 1 and lies inside the grid; for an empty mask it is `{x: width, y: height, width: 1-width, height: 1-height}` |
| LayerInfo.DecodeRLE | my-app/src/components/LayerInfo.js:6-38 | the returned box is the bounding box (in the sense above) of the grid the runs paint |
| LayerInfo.BoxUnique | my-app/src/components/LayerInfo.js:32-37 | the box is determined by the mask: two boxes that both meet the description are equal |
| LayerInfo.RunOrderIrrelevant | my-app/src/components/LayerInfo.js:11-17 | the decoded grid depends only on which runs occur, not on their order or repetition |
| LayerInfo.PermutedPairsDecodeAlike | my-app/src/components/LayerInfo.js:11-17 | reordering the (start, length) pairs of the RLE list leaves the decoded grid unchanged |
| LayerInfo.CoveredCount | my-app/src/components/LayerInfo.js:11-17 | for runs inside the grid that are pairwise disjoint, the number of covered cells is the sum of the run lengths |
| LayerInfo.ForegroundCountIsTotalLength | my-app/src/components/LayerInfo.js:8-17 | for pairwise-disjoint runs inside the grid, the number of 1-cells of the decoded grid is the sum of the run lengths |
| LayerInfo.WorkedExampleCells | my-app/src/components/LayerInfo.js:8-17 | rle `[0,3,10,2]` over a 4x4 grid sets exactly cells 0, 1, 2, 10 and 11 |
| LayerInfo.WorkedExampleBox | my-app/src/components/LayerInfo.js:6-38 | rle `[0,3,10,2]` over shape `[4,4]` yields the box `{x:0, y:0, width:4, height:3}` |
| LayerInfo.Toggle | my-app/src/components/LayerInfo.js:47 | choosing the current selection clears it; any other choice becomes the selection |
| LayerInfo.Selection.constructor | my-app/src/components/LayerInfo.js:41-42 | the panel starts with no thickness and no flake selected |
| LayerInfo.Selection.ThicknessChange | my-app/src/components/LayerInfo.js:46-49 | the thickness toggles and the selected flake index becomes null |
| LayerInfo.Selection.FlakeClick | my-app/src/components/LayerInfo.js:51-59 | the flake index toggles and the thickness is unchanged; a box is reported exactly when the flake's mask has both `rle` and `shape`, and it is the bounding box of the decoded mask |
| MainPage.Clamp | my-app/src/components/MainPage.js:192-194 | a value stored in the RGBA buffer is clamped to 0..255: below 0 gives 0, above 255 gives 255, anything else is itself |
| MainPage.Channel | my-app/src/components/MainPage.js:190-194 | channel k stored for a pixel: a missing channel (`undefined`) stores 0; a present one is stored as is within 0..255, as 0 below and as 255 above |
| MainPage.ByteIndexInjective | my-app/src/components/MainPage.js:191-195 | different (pixel, channel) pairs have different byte positions `(y*w+x)*4+k` |
| MainPage.ByteIndexInBuffer | my-app/src/components/MainPage.js:185-195 | every byte position of a pixel of the image lies below `4*w*h` |
| MainPage.ByteIndexOnto | my-app/src/components/MainPage.js:185-196 | every byte of the `4*w*h` buffer is the position of some (pixel, channel) pair, so the loop writes every byte |
| MainPage.FillImageData | my-app/src/components/MainPage.js:188-197 | after the loop, for every pixel `(x, y)` bytes `k = 0..2` hold the clamped channel `pixel[y][x][k]` (0 where it is missing) and byte 3 holds 255 |
| MainPage.DrawProcessedImage | my-app/src/components/MainPage.js:174-201 | no image gives no result; an image with no rows, an empty row 0 (rejected by `createImageData`) or a row shorter than row 0 (an `undefined` pixel) throws, and only those do; otherwise width is the length of row 0, height the number of rows, and the buffer of `4*w*h` bytes holds every pixel as above |
| MainPage.FilesOnly | my-app/src/components/MainPage.js:70 | no key of the result ends in `/` |
| MainPage.FilesOnlyCounts | my-app/src/components/MainPage.js:70 | folders are dropped and every other item keeps its multiplicity |
| MainPage.FilesOnlyAppend | my-app/src/components/MainPage.js:70 | the filter keeps the listed order: filtering a concatenation is the concatenation of the filtered parts |
| MainPage.FilesOnlyWithTime | my-app/src/components/MainPage.js:70 | dropping folders and then picking the items of one timestamp gives the same list, in the same order, as the other way round |
| MainPage.InsertByRecency | my-app/src/components/MainPage.js:71 | inserting one item into a newest-first list keeps it newest first, and its head is the item or the old head; InsertPermutes and InsertKeepsTies say what it contains and where ties go |
| MainPage.InsertPermutes | my-app/src/components/MainPage.js:71 | inserting into the sorted list adds the item and loses nothing |
| MainPage.InsertKeepsTies | my-app/src/components/MainPage.js:71 | the inserted item goes in front of every item already in the list with the same timestamp, whose order is kept |
| MainPage.SortByRecency | my-app/src/components/MainPage.js:71 | the result is ordered newest first by `last_modified` and is a permutation of the input |
| MainPage.SortIsStable | my-app/src/components/MainPage.js:71 | items with the same timestamp keep their input order |
| MainPage.LoadedImages | my-app/src/components/MainPage.js:69-72 | the list shown has no folder keys, is a permutation of the listed files, is ordered newest first, and files with the same timestamp appear in their listed order |
| MainPage.DisplayName | my-app/src/components/MainPage.js:357 | the name shown is the part of the key after its last `/` (the whole key if it has none): it has no `/`, is a suffix of the key, and is preceded by a `/` when shorter than the key |
| MainPage.UploadedNameShown | my-app/src/components/MainPage.js:257 | a file uploaded under `${userSub}/${file.name}` is shown under its own name |
| MainPage.Gallery.constructor | my-app/src/components/MainPage.js:14-19 | the page starts with no images, no selection, no result, no error and loading off |
| MainPage.Gallery.ImagesListed | my-app/src/components/MainPage.js:63-76 | a listing shows the loaded images; a failure sets "Failed to load image list: " + message and leaves the list |
| MainPage.Gallery.SelectImage | my-app/src/components/MainPage.js:83-88 | selecting sets the key and clears the URL, the processed result and the error, with loading on |
| MainPage.Gallery.ImageUrlReceived | my-app/src/components/MainPage.js:102-118 | the URL is shown or "Failed to load image: " + message is set; loading ends in both cases |
| MainPage.Gallery.ProcessImage | my-app/src/components/MainPage.js:125-130 | without a selected key nothing changes and no request is made; otherwise loading starts and the old result and error are cleared |
| MainPage.Gallery.ProcessingFinished | my-app/src/components/MainPage.js:150-166 | the result is stored or "Image processing failed: " + message is set; loading ends in both cases |
| ResetPassword.ValidatePassword | my-app/src/components/auth/ResetPassword.js:34-47 | null exactly when the password has at least 8 characters, an upper-case letter, a lower-case letter, a digit and one of ``!@#$%^&*(),.?":{}\|<>``; otherwise the message of the first failed rule in the order length, upper, lower, digit, special |
| ResetPassword.ValidateExamples | my-app/src/components/auth/ResetPassword.js:34-47 | "Abcdefg1!" is accepted and "abcdefg1!" is refused for lacking an upper-case letter |
| ResetPassword.TrimStart | my-app/src/components/auth/ResetPassword.js:81 | the result is a suffix of the input; only white space is removed and the result does not start with white space |
| ResetPassword.TrimEnd | my-app/src/components/auth/ResetPassword.js:81 | the result is a prefix of the input; only white space is removed and the result does not end with white space |
| ResetPassword.Trim | my-app/src/components/auth/ResetPassword.js:81 | the trimmed email neither starts nor ends with white space; TrimIsSlice says that only white space is cut off, and TrimIdempotent that trimming twice changes nothing |
| ResetPassword.TrimIsSlice | my-app/src/components/auth/ResetPassword.js:81 | the trimmed email is the input with white space removed at both ends and nothing else |
| ResetPassword.TrimIdempotent | my-app/src/components/auth/ResetPassword.js:81 | trimming twice is trimming once |
| ResetPassword.CheckSubmission | my-app/src/components/auth/ResetPassword.js:56-85 | a missing email, code or new password gives "All fields are required" before anything else; then a differing confirmation gives "Passwords do not match"; then a weak password gives its strength message; otherwise the request carries the trimmed email, the code, the new password and `resetPassword: true` |
| AuthContainer.Merge | my-app/src/components/auth/AuthContainer.js:393-397 | the fields named in `data` take its values and all others keep theirs |
| AuthContainer.MergeIdempotent | my-app/src/components/auth/AuthContainer.js:393-397 | merging the same data twice is merging it once |
| AuthContainer.HandOverToSignUp | my-app/src/components/auth/AuthContainer.js:382-390 | email becomes the old username; username, password and confirmPassword are cleared; the other fields are unchanged |
| AuthContainer.SwitchFormData | my-app/src/components/auth/AuthContainer.js:381-398 | signIn to signUp with a username performs the hand-over; in every other case `data` is merged over the form data |
| AuthContainer.HandOverIgnoresData | my-app/src/components/auth/AuthContainer.js:382-398 | when the hand-over applies, the `data` argument does not matter |
| AuthContainer.SignUpPrecheck | my-app/src/components/auth/AuthContainer.js:191-199 | "Passwords do not match" when the confirmation differs, checked first; then "Password must be at least 8 characters long" below 8 characters; otherwise the request goes ahead |
| AuthContainer.StrongPasswordPassesSignUp | my-app/src/components/auth/AuthContainer.js:191-199 | a confirmed password that the reset form accepts also passes the sign-up pre-checks |
| AuthContainer.SignUpWeakerThanReset | my-app/src/components/auth/AuthContainer.js:196 | the converse fails: "abcdefgh" passes the sign-up pre-checks but the reset form refuses it |
| AuthContainer.Container.constructor | my-app/src/components/auth/AuthContainer.js:11-25 | the container starts on signIn with empty data and messages, all flags off and the history `['signIn']` |
| AuthContainer.Container.UpdateFormState | my-app/src/components/auth/AuthContainer.js:70-88 | the form becomes `s`, `s` is appended to the history with nothing else changed, and the back listener is blocked |
| AuthContainer.Container.ReleaseHistoryBlock | my-app/src/components/auth/AuthContainer.js:85-87 | the delayed callback lifts the block |
| AuthContainer.Container.PopState | my-app/src/components/auth/AuthContainer.js:30-37 | when not blocked and the history has more than one entry, the last entry is removed and the form becomes the new last entry; otherwise nothing changes; the history never becomes empty |
| AuthContainer.Container.SwitchForm | my-app/src/components/auth/AuthContainer.js:377-408 | error and success message are cleared; the data is rewritten as SwitchFormData says; going to verify arms the automatic code sending exactly when the email was non-empty and no code was just sent; then the form is pushed as by UpdateFormState |
| AuthContainer.Container.SignUp | my-app/src/components/auth/AuthContainer.js:189-199 | a failed pre-check shows its message and stops before any request; a passed one leaves the error untouched and proceeds |
| AuthContainer.ForwardThenBack | my-app/src/components/auth/AuthContainer.js:30-37 | moving to a form and going back once the block is lifted restores the form and the history |
| AuthContainer.BackWhileBlocked | my-app/src/components/auth/AuthContainer.js:30 | going back right after a switch, while the block is on, changes nothing |
| Verify.EmailDisplay | my-app/src/components/auth/Verify.js:14-22 | a non-empty email is shown even when the username contains `@`; otherwise a username with `@`; otherwise "your registered email"; the result is never empty |
| Verify.HandOverShownOnVerify | my-app/src/components/auth/Verify.js:14-22 | the form data the hand-over leaves makes getEmailDisplay show the sign-in name |

## Left out

- Network calls are left out: every `fetch`, the response envelopes and the error texts derived from them. The methods that consume an answer take it as a `Result` parameter.
- The canvas is left out: `createElement('canvas')`, `putImageData` and `toDataURL`. These are browser calls; only the buffer fill is modelled.
- `localStorage` and the login token handling are left out. `signIn`, `handleSuccessfulLogin`, `verifyEmail`, `resendVerificationCode` and `handleEmailNotVerified` are left out too; they are request flows whose behaviour depends on the network answer.
- `setTimeout` delays are not modelled. The delayed unblocking of the history listener is the separate method `Container.ReleaseHistoryBlock`.
- `pushState` and the popstate wiring are not modelled, and neither are the effect that sends a code automatically and React rendering.
- `handleDeleteImage`, the upload flow and `config.js` are not part of this model. The upload's key format appears only in `UploadedNameShown`.
- `new Date(...)` parsing of `last_modified` is not modelled: timestamps are integers. Unparseable dates, which give NaN in the comparator, are not modelled.
- `split('/').pop()` and `length` work on UTF-16 code units; the model counts characters.
- LayerInfo.FillMask: a paint outside the grid is dropped. In JavaScript such a write extends the array, or sets a negative property name, and the scan never reads it.
- LayerInfo.DecodeRLE: `shape` is taken as two natural numbers; negative or fractional shapes are not modelled.
- MainPage.FillImageData: requires every row to be at least as long as row 0. DrawProcessedImage makes that check first and returns `Throws` for any other image, so the throwing variants of the loop are not modelled inside the loop itself.
- MainPage.DrawProcessedImage: a thrown error is the outcome `Throws`. The model does not say which error it is (a `TypeError` or an `IndexSizeError`), and it does not model what rendering does after the error.
- AuthContainer.SwitchFormData: `data` may only name the six form fields. Extra keys, which the source would add to the record, are not modelled.
- AuthContainer.Container.SignUp: models only the pre-checks. The registration request and its outcomes are left out with the network.
- MainPage.Gallery.ImageUrlReceived and MainPage.Gallery.ProcessingFinished: answers are applied in the order given. Nothing guards against a stale answer for an earlier selection, and the source has no such guard either.
