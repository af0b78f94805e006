/** The pure part of the upload component's file selection: which candidates a
    call of `handleFiles` accepts, whether it reports a rejection, and what
    `removeFile` leaves of the list. */
module Selection {
  import opened Accept

  /** An opaque object-URL handle (`URL.createObjectURL`), numbered in order of creation. */
  type Preview = nat

  /** An entry of the selection: the file and the preview handle made for it. */
  datatype SelectedFile = SelectedFile(file: FileInfo, preview: Preview)

  const OnlyPdfMessage: string := "Only PDF files are allowed."

  /** The files of a selection, in order: what the observer is handed. */
  function Files(sel: seq<SelectedFile>): seq<FileInfo>
  {
    seq(|sel|, k requires 0 <= k < |sel| => sel[k].file)
  }

  /** The preview handles of a selection, in order. */
  function Previews(sel: seq<SelectedFile>): seq<Preview>
  {
    seq(|sel|, k requires 0 <= k < |sel| => sel[k].preview)
  }

  /** Entries made for `fs` when the next handle the browser hands out is `first`. */
  function WithPreviews(fs: seq<FileInfo>, first: Preview): seq<SelectedFile>
  {
    seq(|fs|, k requires 0 <= k < |fs| => SelectedFile(fs[k], first + k))
  }

  /** Every entry of the selection passes the accept predicate. */
  predicate AllPdf(sel: seq<SelectedFile>)
  {
    forall k :: 0 <= k < |sel| ==> IsPdf(sel[k].file)
  }

  /** No handle occurs twice. */
  predicate Distinct(ps: seq<Preview>)
  {
    forall j, k :: 0 <= j < k < |ps| ==> ps[j] != ps[k]
  }

  /** Making the entry for one more accepted file: it gets the next handle. */
  lemma WithPreviewsPush(fs: seq<FileInfo>, f: FileInfo, first: Preview)
    ensures WithPreviews(fs + [f], first) == WithPreviews(fs, first) + [SelectedFile(f, first + |fs|)]
  {
  }

  /** The entries made for `fs` hold exactly the files `fs`, in order. */
  lemma FilesOfWithPreviews(fs: seq<FileInfo>, first: Preview)
    ensures Files(WithPreviews(fs, first)) == fs
  {
  }

  /** Every handle of the selection was handed out before `next`. */
  predicate HandlesBelow(sel: seq<SelectedFile>, next: Preview)
  {
    forall k :: 0 <= k < |sel| ==> sel[k].preview < next
  }

  /** No handle of the selection has been revoked. */
  predicate NoneRevoked(sel: seq<SelectedFile>, revoked: seq<Preview>)
  {
    forall k :: 0 <= k < |sel| ==> sel[k].preview !in revoked
  }

  /** What the component keeps true of its selection between events: every
      entry is a PDF, single mode holds at most one entry, every handle was
      handed out before `next`, no handle occurs twice or has been revoked,
      and no handle has been revoked twice. */
  predicate SelectionInvariant(sel: seq<SelectedFile>, multiple: bool, next: Preview, revoked: seq<Preview>)
  {
    AllPdf(sel) && (!multiple ==> |sel| <= 1) &&
    HandlesBelow(sel, next) && Distinct(Previews(sel)) && NoneRevoked(sel, revoked) &&
    (forall k :: 0 <= k < |revoked| ==> revoked[k] < next) && Distinct(revoked)
  }

  /** The files the loop of `handleFiles` keeps from candidate `i` on, in
      input order: every PDF in multiple mode, the first PDF alone in single
      mode. */
  function AcceptedFrom(fs: seq<FileInfo>, i: nat, multiple: bool): seq<FileInfo>
    requires i <= |fs|
    decreases |fs| - i
  {
    if i == |fs| then []
    else if !IsPdf(fs[i]) then AcceptedFrom(fs, i + 1, multiple)
    else if multiple then [fs[i]] + AcceptedFrom(fs, i + 1, multiple)
    else [fs[i]]
  }

  /** Whether the loop of `handleFiles`, started at candidate `i`, meets a
      non-PDF before it stops: it examines every candidate in multiple mode,
      and those up to and including the first PDF in single mode. */
  predicate SawRejectFrom(fs: seq<FileInfo>, i: nat, multiple: bool)
    requires i <= |fs|
    decreases |fs| - i
  {
    if i == |fs| then false
    else if !IsPdf(fs[i]) then true
    else multiple && SawRejectFrom(fs, i + 1, multiple)
  }

  /** The files one call of `handleFiles` accepts. */
  function Accepted(fs: seq<FileInfo>, multiple: bool): seq<FileInfo>
  {
    AcceptedFrom(fs, 0, multiple)
  }

  /** Whether one call of `handleFiles` shows the "Only PDF files are allowed." error. */
  predicate SawReject(fs: seq<FileInfo>, multiple: bool)
  {
    SawRejectFrom(fs, 0, multiple)
  }

  /** The new selection after a call that accepted something: the old
      entries followed by the new ones in multiple mode, the new ones alone
      in single mode. */
  function Merge(prev: seq<SelectedFile>, added: seq<SelectedFile>, multiple: bool): seq<SelectedFile>
  {
    if multiple then prev + added else added
  }

  /** Splicing one element out of a copy of `s` at index `i`: the list
      without entry `i`, or `s` itself when `i` is past the end. */
  function RemoveAt<T>(s: seq<T>, i: nat): (r: seq<T>)
    ensures i < |s| ==> |r| == |s| - 1
    ensures i >= |s| ==> r == s
    ensures forall k :: 0 <= k < |r| ==> r[k] == if k < i then s[k] else s[k + 1]
  {
    if i < |s| then s[..i] + s[i + 1..] else s
  }

  /** The loop of `handleFiles` keeps `kept` as the part of the answer already
      found: this is how one more PDF extends it. */
  lemma ScanStep(fs: seq<FileInfo>, i: nat, multiple: bool, kept: seq<FileInfo>)
    requires i < |fs| && IsPdf(fs[i])
    requires kept + AcceptedFrom(fs, i, multiple) == Accepted(fs, multiple)
    ensures multiple ==> (kept + [fs[i]]) + AcceptedFrom(fs, i + 1, multiple) == Accepted(fs, multiple)
    ensures !multiple ==> kept + [fs[i]] == Accepted(fs, multiple)
  {
    if multiple {
      assert (kept + [fs[i]]) + AcceptedFrom(fs, i + 1, multiple) == kept + ([fs[i]] + AcceptedFrom(fs, i + 1, multiple));
    }
  }

  /** Everything `handleFiles` accepts is a PDF. */
  lemma {:induction false} AcceptedArePdfs(fs: seq<FileInfo>, i: nat, multiple: bool)
    requires i <= |fs|
    ensures forall k :: 0 <= k < |AcceptedFrom(fs, i, multiple)| ==> IsPdf(AcceptedFrom(fs, i, multiple)[k])
    decreases |fs| - i
  {
    if i < |fs| {
      AcceptedArePdfs(fs, i + 1, multiple);
    }
  }

  /** In single mode at most one file is accepted per call. */
  lemma {:induction false} AcceptedSingleAtMostOne(fs: seq<FileInfo>, i: nat)
    requires i <= |fs|
    ensures |AcceptedFrom(fs, i, false)| <= 1
    decreases |fs| - i
  {
    if i < |fs| && !IsPdf(fs[i]) {
      AcceptedSingleAtMostOne(fs, i + 1);
    }
  }

  /** Scanning the tail `b` of `a + b` is scanning `b` itself. */
  lemma {:induction false} ScanShift(a: seq<FileInfo>, b: seq<FileInfo>, j: nat, multiple: bool)
    requires j <= |b|
    ensures AcceptedFrom(a + b, |a| + j, multiple) == AcceptedFrom(b, j, multiple)
    ensures SawRejectFrom(a + b, |a| + j, multiple) == SawRejectFrom(b, j, multiple)
    decreases |b| - j
  {
    if j < |b| {
      assert (a + b)[|a| + j] == b[j];
      ScanShift(a, b, j + 1, multiple);
    }
  }

  /** In multiple mode acceptance distributes over concatenation, so the
      accepted files keep the order of the input; so does the error. */
  lemma {:induction false} AcceptedMultipleAppend(a: seq<FileInfo>, b: seq<FileInfo>, i: nat)
    requires i <= |a|
    ensures AcceptedFrom(a + b, i, true) == AcceptedFrom(a, i, true) + Accepted(b, true)
    ensures SawRejectFrom(a + b, i, true) == (SawRejectFrom(a, i, true) || SawReject(b, true))
    decreases |a| - i
  {
    if i == |a| {
      ScanShift(a, b, 0, true);
    } else {
      assert (a + b)[i] == a[i];
      AcceptedMultipleAppend(a, b, i + 1);
    }
  }

  /** In multiple mode a file is accepted exactly when it is a candidate and a PDF. */
  lemma {:induction false} AcceptedMultipleMembers(fs: seq<FileInfo>, i: nat, x: FileInfo)
    requires i <= |fs|
    ensures x in AcceptedFrom(fs, i, true) <==> (exists k :: i <= k < |fs| && fs[k] == x) && IsPdf(x)
    ensures i == 0 ==> (x in Accepted(fs, true) <==> x in fs && IsPdf(x))
    decreases |fs| - i
  {
    if i < |fs| {
      AcceptedMultipleMembers(fs, i + 1, x);
      if exists k :: i <= k < |fs| && fs[k] == x {
        var k :| i <= k < |fs| && fs[k] == x;
        if k > i {
          assert exists k' :: i + 1 <= k' < |fs| && fs[k'] == x;
        }
      }
    }
  }

  /** In multiple mode the error is shown exactly when some candidate is not a PDF. */
  lemma {:induction false} SawRejectMultiple(fs: seq<FileInfo>, i: nat)
    requires i <= |fs|
    ensures SawRejectFrom(fs, i, true) <==> exists j :: i <= j < |fs| && !IsPdf(fs[j])
    decreases |fs| - i
  {
    if i < |fs| {
      SawRejectMultiple(fs, i + 1);
      if j :| i <= j < |fs| && !IsPdf(fs[j]) {
        if j > i {
          assert exists j' :: i + 1 <= j' < |fs| && !IsPdf(fs[j']);
        }
      }
    }
  }

  /** In single mode, when the first PDF from `i` on stands at index `k`,
      exactly that file is accepted, and the error is shown exactly when a
      non-PDF came before it. */
  lemma {:induction false} AcceptedSingleFirst(fs: seq<FileInfo>, i: nat, k: nat)
    requires i <= k < |fs| && IsPdf(fs[k])
    requires forall j :: i <= j < k ==> !IsPdf(fs[j])
    ensures AcceptedFrom(fs, i, false) == [fs[k]]
    ensures SawRejectFrom(fs, i, false) <==> k > i
    decreases k - i
  {
    if i < k {
      AcceptedSingleFirst(fs, i + 1, k);
    }
  }

  /** Candidates among which there is no PDF: nothing is accepted in either
      mode, and the error is shown exactly when there was a candidate. */
  lemma {:induction false} NoPdfAcceptsNothing(fs: seq<FileInfo>, i: nat, multiple: bool)
    requires i <= |fs|
    requires forall j :: i <= j < |fs| ==> !IsPdf(fs[j])
    ensures AcceptedFrom(fs, i, multiple) == []
    ensures SawRejectFrom(fs, i, multiple) <==> i < |fs|
    decreases |fs| - i
  {
    if i < |fs| {
      NoPdfAcceptsNothing(fs, i + 1, multiple);
    }
  }

  /** Single mode keeps the first file that multiple mode would accept, and
      reports a rejection only where multiple mode would. */
  lemma {:induction false} SingleIsFirstOfMultiple(fs: seq<FileInfo>, i: nat)
    requires i <= |fs|
    ensures AcceptedFrom(fs, i, false) ==
      if AcceptedFrom(fs, i, true) == [] then [] else [AcceptedFrom(fs, i, true)[0]]
    ensures SawRejectFrom(fs, i, false) ==> SawRejectFrom(fs, i, true)
    decreases |fs| - i
  {
    if i < |fs| && !IsPdf(fs[i]) {
      SingleIsFirstOfMultiple(fs, i + 1);
    }
  }

  /** Whatever the mode, every file that is accepted has the PDF media type or
      a name ending in ".pdf" in some mixture of cases. */
  lemma AcceptedHavePdfTypeOrSuffix(fs: seq<FileInfo>, multiple: bool, x: FileInfo)
    requires x in Accepted(fs, multiple)
    ensures x.mimeType == "application/pdf" ||
      (|x.name| >= 4 &&
       x.name[|x.name| - 4] == '.' &&
       IsLetter(x.name[|x.name| - 3], 'p') &&
       IsLetter(x.name[|x.name| - 2], 'd') &&
       IsLetter(x.name[|x.name| - 1], 'f'))
  {
    AcceptedArePdfs(fs, 0, multiple);
    IsPdfIff(x);
  }

  /** Entries made with fresh handles are distinct from each other, were never
      revoked, and stay distinct from a selection whose handles are older. */
  lemma FreshEntries(sel: seq<SelectedFile>, fs: seq<FileInfo>, first: Preview, revoked: seq<Preview>)
    requires Distinct(Previews(sel)) && HandlesBelow(sel, first)
    requires forall k :: 0 <= k < |revoked| ==> revoked[k] < first
    ensures var added := WithPreviews(fs, first);
      && Distinct(Previews(added)) && HandlesBelow(added, first + |fs|) && NoneRevoked(added, revoked)
      && Distinct(Previews(sel + added)) && HandlesBelow(sel + added, first + |fs|)
  {
    var added := WithPreviews(fs, first);
    var all := sel + added;
    forall j, k | 0 <= j < k < |all|
      ensures Previews(all)[j] != Previews(all)[k]
    {
      if k < |sel| {
        assert Previews(all)[j] == Previews(sel)[j] && Previews(all)[k] == Previews(sel)[k];
      } else {
        assert Previews(all)[k] == first + (k - |sel|);
      }
    }
  }

  /** Merging the entries made for this call's accepted files into the
      selection keeps every invariant of the selection: all entries are PDFs,
      single mode holds at most one entry, handles are older than the next
      one, distinct, and not revoked. */
  lemma MergeKeepsInvariant(sel: seq<SelectedFile>, fs: seq<FileInfo>, multiple: bool,
                            first: Preview, revoked: seq<Preview>, added: seq<SelectedFile>)
    requires SelectionInvariant(sel, multiple, first, revoked)
    requires added == WithPreviews(Accepted(fs, multiple), first)
    ensures SelectionInvariant(if added == [] then sel else Merge(sel, added, multiple),
                               multiple, first + |added|, revoked)
  {
    var acc := Accepted(fs, multiple);
    AcceptedArePdfs(fs, 0, multiple);
    AcceptedSingleAtMostOne(fs, 0);
    FreshEntries(sel, acc, first, revoked);
  }

  /** Removing entry `i` and revoking its handle keeps every invariant of the
      selection; in particular the handle revoked had not been revoked
      before, so no handle is ever revoked twice. */
  lemma RemoveKeepsInvariant(sel: seq<SelectedFile>, multiple: bool, next: Preview,
                             revoked: seq<Preview>, i: nat)
    requires SelectionInvariant(sel, multiple, next, revoked)
    ensures i < |sel| ==> sel[i].preview !in revoked
    ensures SelectionInvariant(RemoveAt(sel, i), multiple, next,
                               if i < |sel| then revoked + [sel[i].preview] else revoked)
  {
    var r := RemoveAt(sel, i);
    var rev := if i < |sel| then revoked + [sel[i].preview] else revoked;
    RemoveAtKeepsAllPdf(sel, i);
    RemoveAtPreviews(sel, i);
    forall k | 0 <= k < |r|
      ensures r[k].preview < next && r[k].preview !in rev
    {
      var k' := if k < i then k else k + 1;
      assert r[k] == sel[k'];
      assert Previews(sel)[k'] == sel[k'].preview;
      if i < |sel| {
        assert k' != i;
        assert Previews(sel)[i] == sel[i].preview;
      }
    }
    if i < |sel| {
      assert sel[i].preview !in revoked;
      forall j, k | 0 <= j < k < |rev|
        ensures rev[j] != rev[k]
      {
        if k == |revoked| {
          assert rev[j] == revoked[j];
        }
      }
    }
  }

  /** Removing an entry keeps every remaining entry a PDF. */
  lemma RemoveAtKeepsAllPdf(sel: seq<SelectedFile>, i: nat)
    requires AllPdf(sel)
    ensures AllPdf(RemoveAt(sel, i))
  {
  }

  /** Removing an entry keeps the handles distinct, and the handles that
      remain are exactly the old ones other than the removed entry's. */
  lemma RemoveAtPreviews(sel: seq<SelectedFile>, i: nat)
    requires Distinct(Previews(sel))
    ensures Distinct(Previews(RemoveAt(sel, i)))
    ensures forall p :: p in Previews(RemoveAt(sel, i)) <==>
      p in Previews(sel) && (i < |sel| ==> p != sel[i].preview)
  {
    var r := RemoveAt(sel, i);
    forall j, k | 0 <= j < k < |r|
      ensures Previews(r)[j] != Previews(r)[k]
    {
      var j' := if j < i then j else j + 1;
      var k' := if k < i then k else k + 1;
      assert Previews(r)[j] == Previews(sel)[j'] && Previews(r)[k] == Previews(sel)[k'];
    }
    forall p | p in Previews(r)
      ensures p in Previews(sel) && (i < |sel| ==> p != sel[i].preview)
    {
      var k :| 0 <= k < |r| && Previews(r)[k] == p;
      var k' := if k < i then k else k + 1;
      assert Previews(sel)[k'] == p;
      if i < |sel| {
        assert k' != i;
        assert Previews(sel)[i] == sel[i].preview;
      }
    }
    forall p | p in Previews(sel) && (i < |sel| ==> p != sel[i].preview)
      ensures p in Previews(r)
    {
      var k :| 0 <= k < |sel| && Previews(sel)[k] == p;
      if k < i {
        assert Previews(r)[k] == p;
      } else if k > i {
        assert Previews(r)[k - 1] == p;
      }
    }
  }
}
