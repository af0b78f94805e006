/** The accept predicate of the upload component: is a candidate file a PDF? */
module Accept {

  /** What the component reads of a browser `File`: its name and its declared media type. */
  datatype FileInfo = FileInfo(name: string, mimeType: string)

  const PdfMimeType: string := "application/pdf"
  const PdfSuffix: string := ".pdf"

  /** Lower-cases one character; only the ASCII letters 'A'..'Z' are mapped. */
  function LowerChar(c: char): char
  {
    if 'A' <= c <= 'Z' then (c as int + 32) as char else c
  }

  /** JavaScript's string lower-casing, character by character. */
  function ToLower(s: string): (r: string)
    ensures |r| == |s|
    ensures forall i :: 0 <= i < |s| ==> r[i] == LowerChar(s[i])
  {
    if s == [] then [] else [LowerChar(s[0])] + ToLower(s[1..])
  }

  /** JavaScript's suffix test on strings. */
  predicate EndsWith(s: string, suffix: string)
  {
    |suffix| <= |s| && s[|s| - |suffix|..] == suffix
  }

  /** The accept predicate: the declared type is the PDF media type, or the
      lower-cased name ends in ".pdf". */
  predicate IsPdf(f: FileInfo)
  {
    f.mimeType == PdfMimeType || EndsWith(ToLower(f.name), PdfSuffix)
  }

  /** True when `c` is the letter `lower` in either case. */
  predicate IsLetter(c: char, lower: char)
  {
    c == lower || c as int == lower as int - 32
  }

  /** The accept predicate in terms of the name's own last four characters:
      a file is accepted exactly when its type is "application/pdf" or its
      name ends in '.', then p, d and f in any mixture of cases. */
  lemma IsPdfIff(f: FileInfo)
    ensures IsPdf(f) <==>
      f.mimeType == "application/pdf" ||
      (|f.name| >= 4 &&
       f.name[|f.name| - 4] == '.' &&
       IsLetter(f.name[|f.name| - 3], 'p') &&
       IsLetter(f.name[|f.name| - 2], 'd') &&
       IsLetter(f.name[|f.name| - 1], 'f'))
  {
    var n := |f.name|;
    var low := ToLower(f.name);
    if n >= 4 {
      var tail := low[n - 4..];
      assert tail == [low[n - 4], low[n - 3], low[n - 2], low[n - 1]];
      assert EndsWith(low, PdfSuffix) <==> tail == ".pdf";
    }
  }

  /** The scenarios of the component's behaviour: a PDF by type, a PDF by
      upper-case extension only, a Word document, and a name without a dot. */
  lemma IsPdfExamples()
    ensures IsPdf(FileInfo("resume.pdf", "application/pdf"))
    ensures IsPdf(FileInfo("CV.PDF", ""))
    ensures IsPdf(FileInfo("scan", "application/pdf"))
    ensures !IsPdf(FileInfo("resume.docx", "application/msword"))
    ensures !IsPdf(FileInfo("pdf", ""))
  {
    IsPdfIff(FileInfo("resume.pdf", "application/pdf"));
    IsPdfIff(FileInfo("CV.PDF", ""));
    IsPdfIff(FileInfo("scan", "application/pdf"));
    IsPdfIff(FileInfo("resume.docx", "application/msword"));
    IsPdfIff(FileInfo("pdf", ""));
  }
}
