# File selection of the résumé upload button

This project models the file-selection state of the upload component in
`app/UploadButton.tsx` (AI Resume Destroyer). The component lets the user pick
or drop PDF files. It keeps the accepted files with a browser preview handle
each and reports every change of the selection to an optional `onFiles`
observer. In multiple mode every candidate is checked, and any non-PDF sets a
validation error. In single mode only the candidates up to the first PDF are
checked. A non-PDF before that PDF sets the error, and the candidates after it
are ignored without an error.

The model has four modules:

- `Wrappers` (`wrappers.dfy`): the `Option` datatype, standing for a nullable
  value.
- `Accept` (`accept.dfy`): the accept predicate `IsPdf`. A file is accepted when
  its declared media type is `application/pdf`, or when its lower-cased name
  ends in `.pdf`. `IsPdfIff` restates this in terms of the name's own last four
  characters.
- `Selection` (`selection.dfy`): the pure specification.
  - `Accepted` and `SawReject` say which candidates one call of `handleFiles`
    keeps and whether it shows "Only PDF files are allowed.".
  - `Merge` is how the kept entries join the selection.
  - `RemoveAt` is the one-element splice of `removeFile`.
  - `SelectionInvariant` is what holds between events. Every entry is a PDF.
    Single mode holds at most one entry. Preview handles are distinct and
    unrevoked. No handle has been revoked twice.
  - Lemmas about all of these.
- `Intake` (`upload_button.dfy`): class `UploadButton`. Its real fields are
  `selectedFiles`, `error` and `nextPreview`. `nextPreview` is the next handle
  `URL.createObjectURL` gives out, so every preview is fresh. Two ghost logs
  record every `URL.revokeObjectURL` call (`revoked`) and every `onFiles` call
  (`notified`). `multiple` and the presence of an observer are constants.
  - `HandleFiles` and `RemoveFile` are the two handlers. Each one is one atomic
    update.
  - `Scan` is the `for` loop of `handleFiles`, with its `continue` and `break`,
    written as a method of its own. It sets the error and takes a fresh handle
    as the loop does.
  - `Unmount` is the cleanup that the component registers when it mounts.
    `RevokeAll` is its loop over the captured selection.
  - Three client methods state and verify scenarios of the component for
    arbitrary PDF and non-PDF files:
    - a non-PDF is rejected, then from a mixed drop only the first PDF is kept;
    - two single-mode selections, then unmount, revoke no handle;
    - an out-of-range removal still notifies, then a real removal revokes the
      handle.

A preview is revoked only by `RemoveFile`: `HandleFiles` leaves `revoked` as it
was, and `Unmount` revokes only the selection it captured at mount time, which
is empty. The removed handle had not been revoked before
(`RemoveKeepsInvariant`), so no handle is revoked twice. The model does not
promise that every handle is eventually revoked, because the code does not
deliver that:

- in single mode a new PDF replaces the selection without revoking the old
  preview (`app/UploadButton.tsx:64`);
- the unmount cleanup sees the initial, empty selection
  (`app/UploadButton.tsx:33-39`), so it revokes nothing.

`ScenarioPreviewsLeak` shows both.

The component does not release every preview it creates:

- A single-mode replacement does not release the prior preview
  (`app/UploadButton.tsx:64`).
- Teardown releases no preview, because the cleanup's captured selection is
  the empty one of the first render (`app/UploadButton.tsx:33-39`).

`removeFile` accepts any index (`app/UploadButton.tsx:95-104`). Past the end
it removes and revokes nothing, but it still calls `onFiles` with the
unchanged list and still clears the error.

## Model

| member | source | states |
|---|---|---|
| Accept.ToLower | app/UploadButton.tsx:43 | the lower-cased name has the same length as the name, and each character is the original lower-cased |
| Accept.IsPdfIff | app/UploadButton.tsx:41-44 | a file is accepted exactly when its type is "application/pdf" or its name ends in '.', 'p', 'd', 'f' in any mixture of cases (both directions) |
| Accept.IsPdfExamples | app/UploadButton.tsx:41-44 | "resume.pdf" typed application/pdf, "CV.PDF" with no type and "scan" typed application/pdf are accepted; "resume.docx" typed application/msword and a name "pdf" without a dot are not |
| Selection.RemoveAt | app/UploadButton.tsx:97-98 | splicing one element out at i: in range, the list is one shorter, entries before i keep their place and the later ones move down by one; past the end the list is unchanged |
| Selection.ScanStep | app/UploadButton.tsx:52-61 | one more PDF extends the part of the answer already found: multiple mode keeps scanning, single mode has its whole answer |
| Selection.AcceptedArePdfs | app/UploadButton.tsx:52-59 | every file a call of handleFiles keeps passes the accept predicate |
| Selection.AcceptedSingleAtMostOne | app/UploadButton.tsx:60 | in single mode a call keeps at most one file |
| Selection.ScanShift | app/UploadButton.tsx:52 | scanning the tail of a concatenated candidate list gives the same files and the same error as scanning that tail on its own |
| Selection.AcceptedMultipleAppend | app/UploadButton.tsx:52-61 | in multiple mode the files kept from a + b are those kept from a followed by those kept from b, so input order is kept; the error for a + b is the error for a or the error for b |
| Selection.AcceptedMultipleMembers | app/UploadButton.tsx:52-59 | in multiple mode a file is kept exactly when it is a candidate and a PDF |
| Selection.SawRejectMultiple | app/UploadButton.tsx:54-56 | in multiple mode the error is shown exactly when some candidate is not a PDF |
| Selection.AcceptedSingleFirst | app/UploadButton.tsx:52-60 | in single mode, with the first PDF at index k, exactly that file is kept, and the error is shown exactly when a non-PDF came before it |
| Selection.NoPdfAcceptsNothing | app/UploadButton.tsx:52-63 | with no PDF among the candidates nothing is kept in either mode, and the error is shown exactly when there was a candidate |
| Selection.SingleIsFirstOfMultiple | app/UploadButton.tsx:52-61 | single mode keeps the first file multiple mode would keep, and shows the error only if multiple mode would |
| Selection.AcceptedHavePdfTypeOrSuffix | app/UploadButton.tsx:41-59 | no file is ever kept unless its type is "application/pdf" or its name ends in ".pdf" in some mixture of cases |
| Selection.FreshEntries | app/UploadButton.tsx:58-59 | entries made with fresh handles have distinct handles that were never revoked, and no handle is shared with a selection whose handles are older |
| Selection.MergeKeepsInvariant | app/UploadButton.tsx:58-64 | replacing or extending the selection with this call's fresh entries keeps the selection invariant: all PDFs, at most one entry in single mode, handles distinct, unrevoked and already handed out |
| Selection.RemoveAtKeepsAllPdf | app/UploadButton.tsx:97-101 | removing an entry leaves only PDFs |
| Selection.RemoveAtPreviews | app/UploadButton.tsx:97-99 | after a removal the handles are still distinct, and they are exactly the old handles other than the removed entry's |
| Selection.RemoveKeepsInvariant | app/UploadButton.tsx:95-102 | removing entry i and revoking its handle keeps the selection invariant; the handle revoked had not been revoked before, so none is revoked twice |
| Intake.UploadButton.constructor | app/UploadButton.tsx:30-31 | a new component has no selection, no error, no revocation, no notification, and its unmount cleanup holds the empty selection |
| Intake.UploadButton.Scan | app/UploadButton.tsx:51-61 | the loop returns entries for exactly the files Accepted keeps, with consecutive fresh handles; it sets the error exactly when SawReject holds |
| Intake.UploadButton.HandleFiles | app/UploadButton.tsx:46-69 | the error is cleared, then set exactly when an examined candidate was not a PDF; a null or empty list changes nothing else; if something was kept it replaces (single mode) or is appended to (multiple mode) the selection with fresh handles, and the observer gets exactly this call's kept files, once; otherwise selection and observer are untouched; nothing is revoked; the invariant is kept |
| Intake.UploadButton.RemoveFile | app/UploadButton.tsx:95-104 | the selection becomes RemoveAt(old selection, index); only the removed entry's handle is revoked, and none past the end; the observer gets the resulting list (also past the end); the error is cleared; the invariant is kept |
| Intake.UploadButton.Unmount | app/UploadButton.tsx:33-39 | revokes exactly the handles of the selection captured at mount; on any valid component that selection is the empty one of the first render, so the revocation log is unchanged and no handle is revoked again; the invariant is kept |
| Intake.UploadButton.RevokeAll | app/UploadButton.tsx:36 | the preview of every entry of the given selection is revoked, once each, in order, and nothing else is |

## Left out

- `app/page.tsx`, the parent page, is not part of this model. It holds the
  analysis state (idle, uploading, result, error), an async `fetch` to the
  analysis endpoint, a 20-second `setTimeout` failsafe and markdown rendering.
  These are timers, asynchronous UI glue and dynamically typed JSON handling.
- `app/api/analyze/route.ts` is not part of this model. It parses the form data
  and makes two calls to the OpenAI SDK, which are network I/O with no logic of
  their own.
- JSX rendering, the `dragOver` styling flag, the click, keyboard and drag
  handlers, and clearing the input element's value after a pick are UI.
- Accept.ToLower: lower-cases only the ASCII letters A to Z. JavaScript's
  `toLowerCase` also maps other Unicode letters. This cannot change the
  `.pdf` suffix test: in Unicode's default case mapping no other character
  lower-cases to '.', 'p', 'd' or 'f'. So `IsPdf` gives the same answer as
  the component for every name.
- Object URLs are opaque handles. The model numbers them from 0 per
  component. A revocation is only recorded in a log, and what the browser does
  with it is not modelled.
- React's hook closures, state-updater timing and batching are not modelled.
  Each handler is one atomic update. The stale closure of the unmount cleanup
  is modelled as the constant `mountedSelection`.
- `RemoveFile` takes a natural-number index. JavaScript's `splice` would count
  a negative index from the end of the list, but the component only ever
  passes the position of a rendered entry.
- What the observer does with a notification (the page stores the files) is
  not modelled. Each call is recorded in the `notified` log. When no observer
  was passed, nothing is recorded.
- The `accept`, `label`, `className`, `analyzeResume`, `serverError` and
  `loading` props only shape the rendered markup. The picker's `accept`
  filter is only a hint to the browser. `handleFiles` checks the
  candidates again itself (all of them in multiple mode, those up to the
  first PDF in single mode), and that check is what the model covers.
