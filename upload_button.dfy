/** The file-selection state of the upload component: the selected entries, the
    validation error, the browser's object-URL allocator and two logs (the
    handles revoked and the lists passed to the observer). Each handler runs
    as one atomic update of this state. */
module Intake {
  import opened Wrappers
  import opened Accept
  import opened Selection

  class UploadButton {
    /** The `multiple` prop: append in multiple mode, replace in single mode. */
    const multiple: bool
    /** Whether an `onFiles` observer was passed. */
    const hasObserver: bool
    /** The selection the unmount cleanup captured when the component mounted. */
    const mountedSelection: seq<SelectedFile>

    var selectedFiles: seq<SelectedFile>
    var error: Option<string>
    /** The next handle `URL.createObjectURL` hands out. */
    var nextPreview: Preview
    /** Every `URL.revokeObjectURL` call, in order. */
    ghost var revoked: seq<Preview>
    /** Every `onFiles` call, in order, with the file list it received. */
    ghost var notified: seq<seq<FileInfo>>

    /** The selection invariant, and the unmount cleanup's captured selection
        is the one of the first render: the empty one. */
    ghost predicate Valid()
      reads this
    {
      && SelectionInvariant(selectedFiles, multiple, nextPreview, revoked)
      && mountedSelection == []
    }

    /** The component as first rendered: nothing selected, no error. */
    constructor (multiple: bool, hasObserver: bool)
      ensures Valid()
      ensures this.multiple == multiple && this.hasObserver == hasObserver
      ensures selectedFiles == [] && error == None
      ensures revoked == [] && notified == [] && mountedSelection == []
    {
      this.multiple := multiple;
      this.hasObserver := hasObserver;
      mountedSelection := [];
      selectedFiles := [];
      error := None;
      nextPreview := 0;
      revoked := [];
      notified := [];
    }

    /** `handleFiles`: clears the error, walks the candidates (`Scan`) and, if
        anything was accepted, replaces (single mode) or extends (multiple
        mode) the selection with it and passes this call's accepted files,
        alone, to the observer. A null or empty candidate list only clears
        the error. */
    method HandleFiles(files: Option<seq<FileInfo>>)
      requires Valid()
      modifies this
      ensures Valid()
      ensures var fs := if files.Some? then files.value else [];
        var acc := Accepted(fs, multiple);
        && error == (if SawReject(fs, multiple) then Some(OnlyPdfMessage) else None)
        && nextPreview == old(nextPreview) + |acc|
        && selectedFiles == (if acc == [] then old(selectedFiles)
                             else Merge(old(selectedFiles), WithPreviews(acc, old(nextPreview)), multiple))
        && notified == (if acc != [] && hasObserver then old(notified) + [acc] else old(notified))
      ensures revoked == old(revoked)
    {
      error := None;
      if files.None? || |files.value| == 0 {
        return;
      }
      var accepted := Scan(files.value);
      MergeKeepsInvariant(selectedFiles, files.value, multiple, old(nextPreview), revoked, accepted);
      FilesOfWithPreviews(Accepted(files.value, multiple), old(nextPreview));
      if |accepted| > 0 {
        selectedFiles := Merge(selectedFiles, accepted, multiple);
        if hasObserver {
          notified := notified + [Files(accepted)];
        }
      }
    }

    /** The loop of `handleFiles`: walks the candidates in order; a non-PDF
        sets the error, a PDF gets the next preview handle and is kept, and in
        single mode the walk stops at the first PDF. Returns the entries kept. */
    method Scan(fs: seq<FileInfo>) returns (accepted: seq<SelectedFile>)
      requires error == None
      modifies this`error, this`nextPreview
      ensures accepted == WithPreviews(Accepted(fs, multiple), old(nextPreview))
      ensures nextPreview == old(nextPreview) + |accepted|
      ensures error == if SawReject(fs, multiple) then Some(OnlyPdfMessage) else None
    {
      accepted := [];
      ghost var kept: seq<FileInfo> := [];
      var i := 0;
      while i < |fs|
        invariant 0 <= i <= |fs|
        invariant kept + AcceptedFrom(fs, i, multiple) == Accepted(fs, multiple)
        invariant accepted == WithPreviews(kept, old(nextPreview))
        invariant error == None || error == Some(OnlyPdfMessage)
        invariant (error.Some? || SawRejectFrom(fs, i, multiple)) == SawReject(fs, multiple)
        invariant nextPreview == old(nextPreview) + |kept|
      {
        var f := fs[i];
        if !IsPdf(f) {
          error := Some(OnlyPdfMessage);
          i := i + 1;
          continue;
        }
        var preview := nextPreview;
        nextPreview := nextPreview + 1;
        ScanStep(fs, i, multiple, kept);
        WithPreviewsPush(kept, f, old(nextPreview));
        accepted := accepted + [SelectedFile(f, preview)];
        kept := kept + [f];
        if !multiple {
          break;
        }
        i := i + 1;
      }
    }

    /** `removeFile`: removes entry `index` from a copy of the selection,
        revokes that entry's preview, passes the resulting list to the
        observer and clears the error. An index past the end removes and
        revokes nothing, but the observer is still called and the error
        still cleared. */
    method RemoveFile(index: nat)
      requires Valid()
      modifies this
      ensures Valid()
      ensures selectedFiles == RemoveAt(old(selectedFiles), index)
      ensures revoked == if index < |old(selectedFiles)| then old(revoked) + [old(selectedFiles)[index].preview]
                         else old(revoked)
      ensures notified == if hasObserver then old(notified) + [Files(selectedFiles)] else old(notified)
      ensures error == None
      ensures nextPreview == old(nextPreview)
    {
      RemoveKeepsInvariant(selectedFiles, multiple, nextPreview, revoked, index);
      var next := selectedFiles;
      var removed: Option<SelectedFile> := None;
      if index < |next| {
        removed := Some(next[index]);
        next := RemoveAt(next, index);
      }
      if removed.Some? {
        revoked := revoked + [removed.value.preview];
      }
      if hasObserver {
        notified := notified + [Files(next)];
      }
      selectedFiles := next;
      error := None;
    }

    /** The unmount cleanup: revokes the previews of the selection it captured
        at mount time. That is the initial, empty selection, so it revokes
        nothing and every preview still held at unmount stays unrevoked. */
    method Unmount()
      requires Valid()
      modifies this`revoked
      ensures Valid()
      ensures revoked == old(revoked) + Previews(mountedSelection)
      ensures revoked == old(revoked)
    {
      RevokeAll(mountedSelection);
    }

    /** The loop of the cleanup: revokes the preview of every entry of
        `selection`, in order. */
    method RevokeAll(selection: seq<SelectedFile>)
      modifies this`revoked
      ensures revoked == old(revoked) + Previews(selection)
    {
      var i := 0;
      while i < |selection|
        invariant 0 <= i <= |selection|
        invariant revoked == old(revoked) + Previews(selection[..i])
      {
        revoked := revoked + [selection[i].preview];
        i := i + 1;
      }
    }
  }

  /** A single-mode component as the page uses it: a non-PDF is rejected,
      then from a mixed drop only the first PDF is kept, with the error still
      shown for the non-PDF before it. */
  method ScenarioRejectThenAccept(doc: FileInfo, pdf: FileInfo, other: FileInfo)
    requires !IsPdf(doc) && IsPdf(pdf)
  {
    var b := new UploadButton(false, true);

    NoPdfAcceptsNothing([doc], 0, false);
    b.HandleFiles(Some([doc]));
    assert b.error == Some(OnlyPdfMessage) && |b.selectedFiles| == 0 && |b.notified| == 0;

    var handle := b.nextPreview;
    AcceptedSingleFirst([doc, pdf, other], 0, 1);
    b.HandleFiles(Some([doc, pdf, other]));
    assert |b.selectedFiles| == 1 && b.selectedFiles[0] == SelectedFile(pdf, handle);
    assert b.error == Some(OnlyPdfMessage) && |b.notified| == 1 && b.notified[0] == [pdf];
  }

  /** In single mode a second PDF replaces the first without revoking its
      preview, and the unmount cleanup revokes nothing either: neither
      handle handed out is ever revoked. */
  method ScenarioPreviewsLeak(first: FileInfo, second: FileInfo)
    requires IsPdf(first) && IsPdf(second)
  {
    var b := new UploadButton(false, true);

    var handle := b.nextPreview;
    AcceptedSingleFirst([first], 0, 0);
    b.HandleFiles(Some([first]));
    AcceptedSingleFirst([second], 0, 0);
    b.HandleFiles(Some([second]));
    assert |b.selectedFiles| == 1 && b.selectedFiles[0] == SelectedFile(second, handle + 1);
    b.Unmount();
    assert |b.revoked| == 0;
  }

  /** An out-of-range removal changes nothing but still notifies; removing
      the one entry revokes its preview and notifies with the empty list. */
  method ScenarioRemove(pdf: FileInfo)
    requires IsPdf(pdf)
  {
    var b := new UploadButton(false, true);

    var handle := b.nextPreview;
    AcceptedSingleFirst([pdf], 0, 0);
    b.HandleFiles(Some([pdf]));
    b.RemoveFile(3);
    assert |b.selectedFiles| == 1 && b.selectedFiles[0] == SelectedFile(pdf, handle);
    assert |b.revoked| == 0 && |b.notified| == 2 && b.notified[1] == [pdf];

    b.RemoveFile(0);
    assert |b.selectedFiles| == 0 && |b.revoked| == 1 && b.revoked[0] == handle;
    assert |b.notified| == 3 && b.notified[2] == [];
  }
}
