/**
 * The name under which GET /documents/:id offers a document: the `download`
 * query value or the stored original filename, reduced to its base name and
 * given a ".pdf" extension when it lacks one, and the quote-free form of it
 * that goes into an inline Content-Disposition header.
 */
module DownloadNames {
  import opened Wrappers

  /** True when `s` ends with `suffix`, as JavaScript's String.prototype.endsWith. */
  predicate EndsWith(s: string, suffix: string) {
    |suffix| <= |s| && s[|s| - |suffix|..] == suffix
  }

  // ---------------------------------------------------------------------------
  // Node's path.basename (POSIX flavour)
  // ---------------------------------------------------------------------------

  /** `p` with every trailing '/' removed. */
  function TrimTrailingSlashes(p: string): (r: string)
    ensures |r| <= |p| && r == p[..|r|]
    ensures r == [] || r[|r| - 1] != '/'
    ensures forall i :: |r| <= i < |p| ==> p[i] == '/'
  {
    if |p| > 0 && p[|p| - 1] == '/' then TrimTrailingSlashes(p[..|p| - 1]) else p
  }

  /** The longest suffix of `p` that holds no '/'. */
  function LastSegment(p: string): (r: string)
    ensures '/' !in r
    ensures EndsWith(p, r)
    ensures |r| < |p| ==> p[|p| - |r| - 1] == '/'
  {
    if |p| == 0 || p[|p| - 1] == '/' then [] else LastSegment(p[..|p| - 1]) + [p[|p| - 1]]
  }

  /**
   * path.basename(p): trailing separators are ignored and what follows the
   * last remaining separator is the result ("" for "" and for "/").
   */
  function Basename(p: string): (r: string)
    ensures '/' !in r
  {
    LastSegment(TrimTrailingSlashes(p))
  }

  /** A name without separators is its own base name. */
  lemma BasenameOfPlain(s: string)
    requires '/' !in s
    ensures Basename(s) == s
  {
  }

  /** Taking the base name twice changes nothing. */
  lemma BasenameIdempotent(p: string)
    ensures Basename(Basename(p)) == Basename(p)
  {
  }

  // ---------------------------------------------------------------------------
  // The ".pdf" extension, compared case-insensitively
  // ---------------------------------------------------------------------------

  /** String.prototype.toLowerCase on one character, for the ASCII letters. */
  function LowerChar(c: char): (r: char)
    ensures !('A' <= r <= 'Z')
    ensures !('A' <= c <= 'Z') ==> r == c
    ensures 'A' <= c <= 'Z' ==> 'a' <= r <= 'z' && r as int - 'a' as int == c as int - 'A' as int
  {
    if 'A' <= c <= 'Z' then (c as int + 32) as char else c
  }

  function ToLower(s: string): (r: string)
    ensures |r| == |s|
    ensures forall i :: 0 <= i < |s| ==> r[i] == LowerChar(s[i])
  {
    seq(|s|, i requires 0 <= i < |s| => LowerChar(s[i]))
  }

  const PdfExtension: string := ".pdf"

  /** name.toLowerCase().endsWith('.pdf') */
  predicate HasPdfExtension(name: string): (r: bool)
    ensures r <==> |name| >= 4 && LowerChar(name[|name| - 4]) == '.' && LowerChar(name[|name| - 3]) == 'p' &&
                   LowerChar(name[|name| - 2]) == 'd' && LowerChar(name[|name| - 1]) == 'f'
  {
    EndsWith(ToLower(name), PdfExtension)
  }

  /** The name itself when it already ends in ".pdf" in any case, otherwise the name with ".pdf" appended. */
  function WithPdfExtension(name: string): (r: string)
    ensures HasPdfExtension(r)
    ensures r == name <==> HasPdfExtension(name)
    ensures !HasPdfExtension(name) ==> r == name + PdfExtension
  {
    if HasPdfExtension(name) then name
    else
      var r := name + PdfExtension;
      assert ToLower(r)[|r| - 4..] == PdfExtension by {
        forall i | 0 <= i < 4 ensures ToLower(r)[|r| - 4..][i] == PdfExtension[i] {
          assert r[|name| + i] == PdfExtension[i];
        }
      }
      r
  }

  /** The whole normalisation of a requested or stored name: base name, then extension. */
  function NormalizeDownloadName(requested: string): (r: string)
    ensures HasPdfExtension(r)
    ensures '/' !in r
    ensures r == Basename(requested) || r == Basename(requested) + PdfExtension
  {
    var base := Basename(requested);
    assert forall i :: 0 <= i < |base + PdfExtension| ==> (base + PdfExtension)[i] != '/';
    WithPdfExtension(base)
  }

  /** Normalising an already normalised name returns it unchanged. */
  lemma NormalizeIdempotent(requested: string)
    ensures NormalizeDownloadName(NormalizeDownloadName(requested)) == NormalizeDownloadName(requested)
  {
    var n := NormalizeDownloadName(requested);
    BasenameOfPlain(n);
  }

  /** A name that is already a plain file name with a ".pdf" extension in any case is offered as it is. */
  lemma NormalizeKeepsPdfNames(name: string)
    requires '/' !in name && HasPdfExtension(name)
    ensures NormalizeDownloadName(name) == name
  {
    BasenameOfPlain(name);
  }

  // ---------------------------------------------------------------------------
  // Choosing the name: the `download` query value, or the stored filename
  // ---------------------------------------------------------------------------

  /**
   * A query parameter as Express parses it: missing, one string, or a
   * structured value (an array for a repeated parameter, an object for a
   * bracketed one).
   */
  datatype QueryValue = Absent | Text(text: string) | Structured

  /**
   * `req.query.download || doc.filename`, then normalised. JavaScript's `||`
   * falls back on a missing or empty value; a structured value is truthy and
   * makes path.basename throw, which is `None` here.
   */
  function DownloadName(download: QueryValue, stored: string): (r: Option<string>)
    ensures r.None? <==> download.Structured?
    ensures r.Some? ==> HasPdfExtension(r.value) && '/' !in r.value
    ensures download.Text? && download.text != "" ==> r == Some(NormalizeDownloadName(download.text))
    ensures download.Absent? || download == Text("") ==> r == Some(NormalizeDownloadName(stored))
  {
    match download
    case Structured => None
    case Absent => Some(NormalizeDownloadName(stored))
    case Text(t) => Some(NormalizeDownloadName(if t == "" then stored else t))
  }

  // ---------------------------------------------------------------------------
  // The inline Content-Disposition header
  // ---------------------------------------------------------------------------

  /** name.replace(/"/g, ''): every double quote removed, everything else kept in order. */
  function StripQuotes(s: string): (r: string)
    ensures '"' !in r
    ensures |r| <= |s|
    ensures forall c :: c != '"' ==> multiset(r)[c] == multiset(s)[c]
  {
    if s == [] then []
    else
      assert s == [s[0]] + s[1..];
      (if s[0] == '"' then [] else [s[0]]) + StripQuotes(s[1..])
  }

  lemma {:induction false} StripQuotesAppend(a: string, b: string)
    ensures StripQuotes(a + b) == StripQuotes(a) + StripQuotes(b)
  {
    if a != [] {
      assert (a + b)[1..] == a[1..] + b;
      StripQuotesAppend(a[1..], b);
    } else {
      assert a + b == b;
    }
  }

  lemma {:induction false} StripQuotesOfQuoteFree(s: string)
    requires '"' !in s
    ensures StripQuotes(s) == s
  {
    if s != [] {
      assert '"' !in s[1..] by {
        forall i | 0 <= i < |s| - 1 ensures s[1..][i] != '"' { assert s[1..][i] == s[i + 1]; }
      }
      StripQuotesOfQuoteFree(s[1..]);
      assert s == [s[0]] + s[1..];
    }
  }

  /** Removing quotes from a name that has none changes nothing: stripping is idempotent. */
  lemma StripQuotesIdempotent(s: string)
    ensures StripQuotes(StripQuotes(s)) == StripQuotes(s)
  {
    StripQuotesOfQuoteFree(StripQuotes(s));
  }

  /** Characters other than '"' survive the stripping, so a separator-free name stays separator-free. */
  lemma StripQuotesKeepsNoSeparator(s: string)
    requires '/' !in s
    ensures '/' !in StripQuotes(s)
  {
  }

  /** Only the last four characters decide whether a name has the ".pdf" extension. */
  lemma PdfExtensionByTail(head: string, tail: string)
    requires |tail| == 4
    ensures HasPdfExtension(head + tail) <==> ToLower(tail) == PdfExtension
  {
  }

  /** The characters that lower-case to ".pdf" hold no double quote. */
  lemma PdfTailHasNoQuote(tail: string)
    requires ToLower(tail) == PdfExtension
    ensures '"' !in tail
  {
  }

  /** The quote-free inline name of a ".pdf" name still ends in ".pdf". */
  lemma StripQuotesKeepsPdfExtension(s: string)
    requires HasPdfExtension(s)
    ensures HasPdfExtension(StripQuotes(s))
  {
    var head, tail := s[..|s| - 4], s[|s| - 4..];
    assert s == head + tail;
    PdfExtensionByTail(head, tail);
    PdfTailHasNoQuote(tail);
    StripQuotesAppend(head, tail);
    StripQuotesOfQuoteFree(tail);
    PdfExtensionByTail(StripQuotes(head), tail);
  }

  const InlinePrefix: string := "inline; filename=\""

  /** The header value `inline; filename="<name without quotes>"`. */
  function InlineDisposition(name: string): (r: string)
    ensures |r| == |InlinePrefix| + |StripQuotes(name)| + 1
    ensures r[..|InlinePrefix|] == InlinePrefix && r[|r| - 1] == '"'
    ensures '"' !in r[|InlinePrefix|..|r| - 1]
  {
    InlinePrefix + StripQuotes(name) + "\""
  }

  /** Reads the file name back from an inline header value: the text between `filename="` and the closing quote. */
  function ParseInlineDisposition(h: string): Option<string>
  {
    if |InlinePrefix| < |h| && h[..|InlinePrefix|] == InlinePrefix && h[|h| - 1] == '"'
       && '"' !in h[|InlinePrefix|..|h| - 1]
    then Some(h[|InlinePrefix|..|h| - 1])
    else None
  }

  /**
   * Because the quotes are stripped, the name cannot end the quoted string
   * early: the header holds exactly the stripped name.
   */
  lemma InlineDispositionRoundTrip(name: string)
    ensures ParseInlineDisposition(InlineDisposition(name)) == Some(StripQuotes(name))
  {
  }

  /**
   * The characters Node's setHeader accepts in a header value (horizontal
   * tab, printable ASCII and the Latin-1 range 0x80-0xFF); any other
   * character makes it throw.
   */
  predicate HeaderValueChar(c: char) {
    c == '\t' || (32 <= c as int <= 126) || (128 <= c as int <= 255)
  }

  predicate ValidHeaderValue(h: string) {
    forall i :: 0 <= i < |h| ==> HeaderValueChar(h[i])
  }

  /** The inline header is accepted exactly when every character of the stripped name is. */
  lemma InlineDispositionValid(name: string)
    ensures ValidHeaderValue(InlineDisposition(name)) <==> ValidHeaderValue(StripQuotes(name))
  {
    var s := StripQuotes(name);
    var h := InlineDisposition(name);
    assert forall i :: 0 <= i < |s| ==> h[|InlinePrefix| + i] == s[i];
    assert ValidHeaderValue(InlinePrefix);
    if ValidHeaderValue(s) {
      forall i | 0 <= i < |h| ensures HeaderValueChar(h[i]) {
        if i < |InlinePrefix| {
          assert h[i] == InlinePrefix[i];
        } else if i < |InlinePrefix| + |s| {
          assert h[i] == s[i - |InlinePrefix|];
        } else {
          assert h[i] == '"';
        }
      }
    }
  }
}
