# DraftSathi landing page — a Dafny model

DraftSathi's landing page is one React component. Under its markup it holds a
little logic:

- a fixed table of two legal domains (healthcare, land registry), with a lookup by id;
- an upload check that accepts a file by the extension of its name (`.doc`, `.docx`, `.pdf`);
- a simulated review that counts progress from 0 to 100 in steps of ten and then stores a fixed result of three issues;
- a badge variant chosen from each issue's severity;
- a "download" that derives a file name and a placeholder text from the held file's name;
- a handful of handlers that set the page's state fields: domain select, upload, back, remove file, start review, chat open/close, mobile menu toggle.

The project models that logic in three modules:

- `JsString` (`js_string.dfy`) models the two JavaScript string built-ins the page uses.
  `Split` is `String.prototype.split` with a one-character separator. It comes with its inverse `Join`, proved in both directions (`JoinSplit`, `SplitJoin`). `FirstPiece` and `LastPiece` characterise the first and last pieces.
  `ToLower` is `toLowerCase` on ASCII letters.
- `Landing` (`landing.dfy`) holds the value-level logic as functions and lemmas:
  the domain table and `find`, the extension check, the download name and content, the fixed review payload, the severity badge and the progress schedule.
- `LandingPage` (`landing_page.dfy`) holds the class `Page`.
  Its fields are the seven `useState` hooks. Its methods are the handlers, each stating which fields it sets and that the others are kept.
  `SimulateProcessing` runs the counting loop, `CountProgress`. A ghost field `progressWrites` records every value handed to `setProgress`, so the 0, 10, …, 100 sequence can be stated.
  `Valid()` is the invariant every handler of a user event keeps, the chat and menu toggles included:
  - progress is a multiple of ten in [0, 100];
  - the only result ever held is the fixed payload;
  - a held result comes with progress at 100.

Two points of the code are easy to misread:

- The download name is the text before the *first* dot, not a basename: `my.contract.pdf` gives `my-reviewed.docx`, and `.pdf` gives `-reviewed.docx`.
- `simulateProcessing` has no guard of its own. Only the rendering of the "Start AI Review" button gates it (lines 390, 208 and 246): the button is shown in the upload view (selected domain id truthy) when a file is held, no run is going and no result exists.
  `Page.SimulateProcessing` is the function as written. `Page.StartReview` is the button press: it runs only when `Page.CanStartReview()` holds and otherwise changes nothing.

## Model

| member | source | states |
|---|---|---|
| `JsString.ToLower` | src/components/DraftSathiLanding.tsx:71 | lower-casing keeps the length, maps each character by `LowerChar`, and leaves no ASCII capital |
| `JsString.ToLowerKeepsSeparator` | src/components/DraftSathiLanding.tsx:71 | lower-casing keeps every non-letter separator in place, so dots sit at the same positions before and after |
| `JsString.Split` | src/components/DraftSathiLanding.tsx:71 | `split` yields at least one piece; no piece holds the separator; there is exactly one piece, the whole string, iff the string has no separator |
| `JsString.JoinSplit` | src/components/DraftSathiLanding.tsx:71 | joining the pieces of a split with the separator gives the original string back |
| `JsString.SplitJoin` | src/components/DraftSathiLanding.tsx:133 | splitting a join of separator-free pieces gives those pieces back |
| `JsString.FirstPiece` | src/components/DraftSathiLanding.tsx:133 | `split(sep)[0]` is the prefix before the first separator: all of the string or followed by the separator |
| `JsString.LastPiece` | src/components/DraftSathiLanding.tsx:71 | `split(sep).pop()` is the suffix after the last separator: all of the string or preceded by the separator |
| `Landing.FindDomain` | src/components/DraftSathiLanding.tsx:200 | `find` returns nothing iff no domain has the id; otherwise the FIRST domain in the table with that id |
| `Landing.SelectedDomainName` | src/components/DraftSathiLanding.tsx:200 | the upload heading's domain name exists iff a domain is selected and some card has its id, and it is that card's name |
| `Landing.DomainTable` | src/components/DraftSathiLanding.tsx:35-50 | the two ids are distinct, each finds its own card, any other id finds none |
| `Landing.FileExtension` | src/components/DraftSathiLanding.tsx:71 | the extension is a dot, then the lower-cased longest dot-free suffix of the name: all of a dot-free name, else the text after the last dot |
| `Landing.ExtensionIs` | src/components/DraftSathiLanding.tsx:70-73 | the extension is `.base` iff the lower-cased name is `base` or ends with `.base` |
| `Landing.AllowedUploadIff` | src/components/DraftSathiLanding.tsx:70-76 | a name passes iff, lower-cased, it is `doc`/`docx`/`pdf` or ends with `.doc`/`.docx`/`.pdf` |
| `Landing.ExtensionOfLastSegment` | src/components/DraftSathiLanding.tsx:71 | whatever precedes the last dot, the extension is the lower-cased text after it |
| `Landing.ExtensionOfDotFreeName` | src/components/DraftSathiLanding.tsx:71 | a name with no dot is its own extension, lower-cased, after the leading dot |
| `Landing.BareNameAccepted` | src/components/DraftSathiLanding.tsx:70-73 | a name with no dot, `pdf`, is accepted |
| `Landing.DotPdfAccepted` | src/components/DraftSathiLanding.tsx:70-73 | any name ending in `.pdf` is accepted, `.pdf` itself included |
| `Landing.OnlyLastSegmentCounts` | src/components/DraftSathiLanding.tsx:70-73 | any name ending in `.pdf.exe`, such as `a.pdf.exe`, is rejected |
| `Landing.TrailingDotRejected` | src/components/DraftSathiLanding.tsx:70-73 | any name ending in a dot, such as `a.`, gives the extension `.` and is rejected |
| `Landing.CaseIgnored` | src/components/DraftSathiLanding.tsx:70-73 | any name ending in `.PDF`, such as `A.PDF`, is accepted |
| `Landing.IsAllowedUpload` | src/components/DraftSathiLanding.tsx:73 | `allowedTypes.includes(fileExtension)`: the name passes iff its extension is exactly `.doc`, `.docx` or `.pdf` |
| `Landing.UploadDecision` | src/components/DraftSathiLanding.tsx:69-79 | a file is accepted iff its extension is in the allow-list; a rejection carries the alert text |
| `Landing.RevisedFileName` | src/components/DraftSathiLanding.tsx:133 | the download name ends in `-reviewed.docx`; before that comes a dot-free prefix of the name that is the whole name or is followed by a dot |
| `Landing.RevisedFileNameCutsAtFirstDot` | src/components/DraftSathiLanding.tsx:133 | for a dot-free `base`, `base.anything` downloads as `base-reviewed.docx`, so `my.contract.pdf` gives `my-reviewed.docx` |
| `Landing.RevisedFileNameWithoutDot` | src/components/DraftSathiLanding.tsx:133 | a dot-free name is kept whole in the download name |
| `Landing.RevisedContent` | src/components/DraftSathiLanding.tsx:128 | the artefact's text is as long as the fixed header, the name and the fixed footer together |
| `Landing.ContentNamesFile` | src/components/DraftSathiLanding.tsx:128 | the name read back from an artefact's text is the file's name, and a text of that shape is the artefact of the name it holds |
| `Landing.Download` | src/components/DraftSathiLanding.tsx:125-133 | no artefact iff no file is held; otherwise the artefact's name is the derived download name and its text names the file |
| `Landing.MockReview` | src/components/DraftSathiLanding.tsx:98-120 | the fixed payload has exactly three issues, of severity High, Medium, Low in that order |
| `Landing.SeverityBadge` | src/components/DraftSathiLanding.tsx:304-305 | every severity gets a badge: destructive iff `High`, default iff `Medium`, secondary iff neither |
| `Landing.MockReviewBadges` | src/components/DraftSathiLanding.tsx:300-305 | the payload's three issues show destructive, default and secondary badges in order |
| `Landing.ProgressFromShape` | src/components/DraftSathiLanding.tsx:92-95 | from a counter that is a multiple of ten, the loop writes `(110 - i) / 10` values, going up by ten from `i` |
| `Landing.ProgressScheduleFacts` | src/components/DraftSathiLanding.tsx:92-95 | the loop writes exactly 0, 10, …, 100: eleven values, strictly increasing, each a multiple of ten in [0, 100] |
| `LandingPage.Page.constructor` | src/components/DraftSathiLanding.tsx:53-59 | the page starts with no domain, file or result, progress 0, and chat and menu closed |
| `LandingPage.Page.SetProgress` | src/components/DraftSathiLanding.tsx:56 | the `setProgress` hook: progress becomes the value, which is appended to the record of writes; nothing else may change |
| `LandingPage.Page.SelectDomain` | src/components/DraftSathiLanding.tsx:62-67 | sets the domain, clears file and result, sets progress to 0; processing, chat and menu flags are kept |
| `LandingPage.Page.UploadFile` | src/components/DraftSathiLanding.tsx:69-79 | accepted iff the extension is allowed; a rejection alerts and changes nothing; an acceptance replaces the held file and changes nothing else |
| `LandingPage.Page.Back` | src/components/DraftSathiLanding.tsx:194 | clears the selected domain and may change no other field, so the file and result are kept |
| `LandingPage.Page.RemoveFile` | src/components/DraftSathiLanding.tsx:240 | clears the held file and may change no other field |
| `LandingPage.Page.OpenChat` | src/components/DraftSathiLanding.tsx:509 | opens the chat panel and may change no other field (the same setter is used at line 330) |
| `LandingPage.Page.CloseChat` | src/components/DraftSathiLanding.tsx:530 | closes the chat panel and may change no other field |
| `LandingPage.Page.ToggleMobileMenu` | src/components/DraftSathiLanding.tsx:369 | flips the mobile menu flag and may change no other field |
| `LandingPage.Page.SimulateProcessing` | src/components/DraftSathiLanding.tsx:87-123 | writes progress 0, then 0, 10, …, 100 in order; ends with processing off, progress 100 and the fixed payload stored; domain, file, chat and menu are kept |
| `LandingPage.Page.CountProgress` | src/components/DraftSathiLanding.tsx:92-95 | the counting loop writes exactly the schedule 0, 10, …, 100 in order, ends at 100, and may change no field but progress |
| `LandingPage.Page.CanStartReview` | src/components/DraftSathiLanding.tsx:390 | the render gate of the Start button: a selected domain id that is truthy (non-empty, line 390), a held file (line 208), no run and no result (line 246) |
| `LandingPage.Page.StartReview` | src/components/DraftSathiLanding.tsx:246-248 | the run happens iff the button is on screen (uploader shown, file held, no run, no result); otherwise nothing changes |
| `LandingPage.Page.DownloadRevisedDocument` | src/components/DraftSathiLanding.tsx:125-138 | nothing iff no file is held; otherwise the artefact named `<text before first dot>-reviewed.docx` with the fixed text naming the file |
| `LandingPage.Page.UploaderHeading` | src/components/DraftSathiLanding.tsx:200 | present iff the selected id names a card, and then that card's name |
| `LandingPage.ToggleMobileMenuTwice` | src/components/DraftSathiLanding.tsx:369 | toggling the mobile menu twice restores the page exactly |
| `LandingPage.ChatRoundTrip` | src/components/DraftSathiLanding.tsx:509-530 | opening then closing the chat panel restores the page exactly |
| `LandingPage.ReviewIgnoresFile` | src/components/DraftSathiLanding.tsx:98-122 | two pages that can start a review end it with the same result, the fixed payload, whatever files they hold |
| `LandingPage.Session` | src/components/DraftSathiLanding.tsx:62-138 | select a domain, upload an allowed file, review, download: the artefact is the one derived from that file's name |

## Left out

- `JsString.ToLower`: lower-cases ASCII capitals only, not the full Unicode case mapping of `toLowerCase`.
- All JSX markup, CSS classes, icons, static copy and the link lists have no behaviour to state. The domain cards' icons are not part of `Landing.Domain`.
- `alert` is a browser call. A rejected upload is modelled as the `Rejected(alert)` outcome with the alert text and no state change.
- Browser calls in the download are left out: `Blob`, `URL.createObjectURL`, creating, clicking and removing the anchor, and `revokeObjectURL`. Only the derived name and text are modelled.
- `handleDrop`, the hidden file input and `fileInputRef` are left out. They are event plumbing that hands the first dropped or picked file, if any, to `handleFileUpload`, which is modelled as `Page.UploadFile`.
- The 200 ms `setTimeout` between progress steps and the `async`/`await` of `simulateProcessing` are left out. The loop runs to completion in one call, so other handlers cannot interleave with a run. The source does not guard against that interleaving (for example, a domain change during a run). `Page.Valid()` holds only for this sequential reading.
- The file-size display `(size / 1024 / 1024).toFixed(2)` is floating-point formatting. The advertised 20 MB limit is not enforced by the source, and no size check is modelled.
- `useCallback` memoisation and React's batching of state updates are not modelled: each handler's writes are applied in program order.
