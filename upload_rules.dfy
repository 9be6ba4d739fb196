/**
 * What POST /documents/upload accepts, and the name under which an accepted
 * file is written to the uploads directory.
 */
module UploadRules {
  import opened Wrappers
  import opened DownloadNames

  /** The one MIME type the file filter lets through, compared exactly (case matters). */
  const PdfMimeType: string := "application/pdf"

  /** The upload size limit: 5 MiB. A file of exactly this many bytes is still accepted. */
  const MaxFileSize: nat := 5 * 1024 * 1024

  /** The `file` part of the multipart request, as the upload middleware describes it. */
  datatype IncomingFile = IncomingFile(originalName: string, mimeType: string, size: nat)

  /** Why the middleware refused a file: the filter runs first, the size limit while the file streams. */
  datatype Rejection = NotPdf | TooLarge

  /** The file filter, then the size limit; `None` means the file is accepted. */
  function Screen(f: IncomingFile): (r: Option<Rejection>)
    ensures r.None? <==> f.mimeType == PdfMimeType && f.size <= MaxFileSize
    ensures r == Some(NotPdf) <==> f.mimeType != PdfMimeType
    ensures r == Some(TooLarge) ==> f.size > MaxFileSize
  {
    if f.mimeType != PdfMimeType then Some(NotPdf)
    else if f.size > MaxFileSize then Some(TooLarge)
    else None
  }

  // ---------------------------------------------------------------------------
  // Timestamps as JavaScript prints them
  // ---------------------------------------------------------------------------

  predicate IsDigit(c: char) {
    '0' <= c <= '9'
  }

  function DigitChar(d: nat): (c: char)
    requires d < 10
    ensures IsDigit(c) && c as int - '0' as int == d
  {
    ('0' as int + d) as char
  }

  /**
   * The decimal digits of a millisecond timestamp, as `Date.now() + '-'`
   * prints it (Date.now() never reaches the range where JavaScript switches
   * to exponent notation).
   */
  function DecimalString(n: nat): (s: string)
    ensures |s| >= 1
    ensures forall i :: 0 <= i < |s| ==> IsDigit(s[i])
    ensures n > 0 ==> s[0] != '0'
  {
    if n < 10 then [DigitChar(n)] else DecimalString(n / 10) + [DigitChar(n % 10)]
  }

  /** The number a non-empty string of decimal digits denotes; `None` otherwise. */
  function ParseDecimal(s: string): Option<nat>
  {
    if s == [] || !IsDigit(s[|s| - 1]) then None
    else
      var last := s[|s| - 1] as int - '0' as int;
      if |s| == 1 then Some(last)
      else match ParseDecimal(s[..|s| - 1])
        case None => None
        case Some(v) => Some(v * 10 + last)
  }

  /** Printing a timestamp and reading it back gives the timestamp. */
  lemma {:induction false} DecimalRoundTrip(n: nat)
    ensures ParseDecimal(DecimalString(n)) == Some(n)
  {
    var s := DecimalString(n);
    if n >= 10 {
      DecimalRoundTrip(n / 10);
      assert s[..|s| - 1] == DecimalString(n / 10);
    }
  }

  // ---------------------------------------------------------------------------
  // The stored file name
  // ---------------------------------------------------------------------------

  /** The destination directory of the disk storage. */
  const UploadsDir: string := "uploads/"

  /** `Date.now() + '-' + file.originalname` */
  function UniqueName(now: nat, originalName: string): (r: string)
    ensures EndsWith(r, originalName) && |r| > |originalName| + 1
    ensures '/' !in originalName ==> '/' !in r
  {
    DecimalString(now) + "-" + originalName
  }

  /** The stored name is the timestamp's digits and a '-', followed by the original name. */
  lemma UniqueNameShape(now: nat, originalName: string)
    ensures var u := UniqueName(now, originalName);
            && |u| > |originalName| + 1
            && u[..|u| - |originalName|] == DecimalString(now) + "-"
            && u[|u| - |originalName|..] == originalName
  {
  }

  /** The path multer records for the stored file: the destination directory joined with the unique name. */
  function StoredPath(now: nat, originalName: string): (r: string)
    ensures |r| > |UploadsDir| && r[..|UploadsDir|] == UploadsDir
    ensures '/' !in originalName ==> Basename(r) == UniqueName(now, originalName)
  {
    UploadsDir + UniqueName(now, originalName)
  }

  /** Splits a name at its first '-'. */
  function SplitAtDash(u: string): (r: Option<(string, string)>)
    ensures r.Some? ==> '-' !in r.value.0 && u == r.value.0 + "-" + r.value.1
    ensures r.None? <==> '-' !in u
  {
    if u == [] then None
    else if u[0] == '-' then Some(([], u[1..]))
    else match SplitAtDash(u[1..])
      case None => None
      case Some(p) => Some(([u[0]] + p.0, p.1))
  }

  /** The timestamp and the original name read back from a stored name. */
  function ParseUniqueName(u: string): Option<(nat, string)>
  {
    match SplitAtDash(u)
    case None => None
    case Some(p) =>
      match ParseDecimal(p.0)
      case None => None
      case Some(t) => Some((t, p.1))
  }

  lemma {:induction false} SplitAtFirstDash(a: string, b: string)
    requires '-' !in a
    ensures SplitAtDash(a + "-" + b) == Some((a, b))
  {
    if a == [] {
      assert a + "-" + b == ['-'] + b;
    } else {
      assert (a + "-" + b)[1..] == a[1..] + "-" + b;
      assert '-' !in a[1..] by {
        forall i | 0 <= i < |a| - 1 ensures a[1..][i] != '-' { assert a[1..][i] == a[i + 1]; }
      }
      SplitAtFirstDash(a[1..], b);
      assert [a[0]] + a[1..] == a;
    }
  }

  /**
   * Digits hold no '-', so the first '-' of a stored name is the one after
   * the timestamp: the upload time and the original name, dashes and all,
   * can be recovered from the stored name.
   */
  lemma UniqueNameRoundTrip(now: nat, originalName: string)
    ensures ParseUniqueName(UniqueName(now, originalName)) == Some((now, originalName))
  {
    var d := DecimalString(now);
    assert '-' !in d by {
      forall i | 0 <= i < |d| ensures d[i] != '-' { assert IsDigit(d[i]); }
    }
    SplitAtFirstDash(d, originalName);
    DecimalRoundTrip(now);
  }
}
