/**
  The first-party logic of the web front end: the upload filename check
  (extension after the last dot, compared without regard to case), the
  upload handler's guard, and the transliteration handler, which refuses
  blank text.
 */
module App {
  import opened Transliteration

  datatype Option<T> = None | Some(value: T)

  /** The extensions an uploaded file may carry, in lower case. */
  const AllowedExtensions: set<string> := {"pdf", "png", "jpg", "jpeg"}

  /** `str.lower()` on one character, over the ASCII letters. */
  function LowerChar(c: char): char {
    if 'A' <= c <= 'Z' then (c as int - 'A' as int + 'a' as int) as char else c
  }

  /** An upper-case letter becomes its lower-case partner, 32 code points
      on; every other character is kept; no upper-case letter remains. */
  lemma LowerCharCases(c: char)
    ensures LowerChar(c) == c <==> !('A' <= c <= 'Z')
    ensures !('A' <= LowerChar(c) <= 'Z')
    ensures LowerChar(c) as int == c as int || LowerChar(c) as int == c as int + 32
  {
  }

  /** `str.lower()` on a text, character by character. */
  function Lower(s: string): string {
    seq(|s|, i requires 0 <= i < |s| => LowerChar(s[i]))
  }

  /** Lower-casing keeps the length, keeps every dot and every other
      non-letter in place, and leaves no upper-case ASCII letter. */
  lemma LowerPointwise(s: string)
    ensures |Lower(s)| == |s|
    ensures forall i | 0 <= i < |s| :: Lower(s)[i] == '.' <==> s[i] == '.'
    ensures forall i | 0 <= i < |s| :: !('A' <= Lower(s)[i] <= 'Z')
    ensures forall i | 0 <= i < |s| && !('A' <= s[i] <= 'Z') :: Lower(s)[i] == s[i]
  {
  }

  /** Texts that agree letter by letter up to case have the same lower-case form. */
  lemma LowerAgrees(a: string, b: string)
    requires |a| == |b|
    requires forall i | 0 <= i < |a| :: LowerChar(a[i]) == LowerChar(b[i])
    ensures Lower(a) == Lower(b)
  {
  }

  /** Text without upper-case ASCII letters is its own lower-case form. */
  lemma LowerKeepsLowerCase(s: string)
    requires forall i | 0 <= i < |s| :: !('A' <= s[i] <= 'Z')
    ensures Lower(s) == s
  {
  }

  /** The position of the last occurrence of `c` in `s`, if any. */
  function LastIndexOf(s: string, c: char): (r: Option<nat>)
    ensures r.None? <==> c !in s
    ensures r.Some? ==> r.value < |s| && s[r.value] == c && c !in s[r.value + 1..]
  {
    if s == [] then None
    else if s[|s| - 1] == c then Some(|s| - 1)
    else
      var r := LastIndexOf(s[..|s| - 1], c);
      assert r.Some? ==> s[r.value + 1..] == s[..|s| - 1][r.value + 1..] + [s[|s| - 1]];
      r
  }

  /** `s.rsplit(".", 1)`: the whole text when it has no dot, otherwise
      the parts before and after the last dot. */
  function RSplitDot(s: string): (parts: seq<string>)
    ensures '.' !in s ==> parts == [s]
    ensures '.' in s ==> |parts| == 2 && parts[0] + "." + parts[1] == s && '.' !in parts[1]
  {
    match LastIndexOf(s, '.')
    case None => [s]
    case Some(k) =>
      assert s[..k] + "." + s[k + 1..] == s;
      [s[..k], s[k + 1..]]
  }

  /** `allowed_file`: there is a dot, and the lower-cased text after the last
      one is an allowed extension. Exactly when `get_extension` succeeds with
      an allowed extension. */
  predicate AllowedFile(filename: string): (ok: bool)
    ensures ok <==> GetExtension(filename).Some? && GetExtension(filename).value in AllowedExtensions
  {
    '.' in filename && Lower(RSplitDot(filename)[1]) in AllowedExtensions
  }

  /** `get_extension`: the lower-cased text after the last dot. Without a dot
      `get_extension` raises `IndexError` (the split has no second part),
      modelled as `None`. */
  function GetExtension(filename: string): (r: Option<string>)
    ensures r.None? <==> '.' !in filename
    ensures r.Some? ==>
      var k := |filename| - |r.value| - 1;
      && 0 <= k
      && filename[k] == '.'
      && '.' !in filename[k + 1..]
      && r.value == Lower(filename[k + 1..])
  {
    var parts := RSplitDot(filename);
    if |parts| < 2 then None
    else
      assert filename[|filename| - |parts[1]|..] == parts[1];
      Some(Lower(parts[1]))
  }

  /** Independent statement of the filename rule: some split of the name into
      a stem, a dot and a dot-free suffix has an allowed suffix up to case. */
  lemma AllowedFileIff(filename: string)
    ensures AllowedFile(filename) <==>
      exists k | 0 <= k < |filename| ::
        filename[k] == '.' && '.' !in filename[k + 1..] && Lower(filename[k + 1..]) in AllowedExtensions
  {
    if AllowedFile(filename) {
      var parts := RSplitDot(filename);
      var k := |parts[0]|;
      assert filename[k + 1..] == parts[1];
    } else {
      forall k | 0 <= k < |filename| && filename[k] == '.' && '.' !in filename[k + 1..]
        ensures Lower(filename[k + 1..]) !in AllowedExtensions
      {
        var parts := RSplitDot(filename);
        var j := |parts[0]|;
        assert filename[j] == '.' && filename[j + 1..] == parts[1];
      }
    }
  }

  /** Only the last dot counts: a name is judged by its final suffix alone. */
  lemma AllowedFileLastDot(stem: string, ext: string)
    requires '.' !in ext
    ensures AllowedFile(stem + "." + ext) <==> Lower(ext) in AllowedExtensions
  {
    var f := stem + "." + ext;
    var parts := RSplitDot(f);
    assert f[|stem|] == '.';
    assert f[|stem| + 1..] == ext;
    var j := |parts[0]|;
    assert f[j] == '.' && f[j + 1..] == parts[1];
  }

  /** A name that agrees with `f` up to case splits at the same last dot,
      and its extension agrees with that of `f` up to case. */
  lemma CaseVariantSplit(f: string, g: string)
    requires |f| == |g|
    requires forall i | 0 <= i < |f| :: LowerChar(f[i]) == LowerChar(g[i])
    requires '.' in f
    ensures var j := |RSplitDot(f)[0]|;
      && j < |g|
      && g == g[..j] + "." + g[j + 1..]
      && '.' !in g[j + 1..]
      && Lower(g[j + 1..]) == Lower(RSplitDot(f)[1])
  {
    var pf := RSplitDot(f);
    var j := |pf[0]|;
    assert f == pf[0] + "." + pf[1];
    assert f[j] == '.' && f[j + 1..] == pf[1];
    var ge := g[j + 1..];
    assert g[j] == '.' by { assert LowerChar(f[j]) == LowerChar(g[j]); }
    assert g == g[..j] + "." + ge;
    forall i | 0 <= i < |ge|
      ensures ge[i] != '.' && LowerChar(ge[i]) == LowerChar(pf[1][i])
    {
      assert ge[i] == g[j + 1 + i] && pf[1][i] == f[j + 1 + i];
    }
    LowerAgrees(ge, pf[1]);
  }

  /** Two names that differ only in the case of their letters are judged alike. */
  lemma AllowedFileIgnoresCase(f: string, g: string)
    requires |f| == |g|
    requires forall i | 0 <= i < |f| :: LowerChar(f[i]) == LowerChar(g[i])
    ensures AllowedFile(f) <==> AllowedFile(g)
  {
    if '.' in f {
      var pf := RSplitDot(f);
      var j := |pf[0]|;
      CaseVariantSplit(f, g);
      AllowedFileLastDot(pf[0], pf[1]);
      AllowedFileLastDot(g[..j], g[j + 1..]);
    } else {
      forall i | 0 <= i < |g|
        ensures g[i] != '.'
      {
        assert LowerChar(f[i]) == LowerChar(g[i]);
      }
    }
  }

  /** A name with no dot is refused. */
  lemma AllowedFileNeedsDot(filename: string)
    requires '.' !in filename
    ensures !AllowedFile(filename)
  {
  }

  /** Worked case: only the last dot counts, so a final ".exe" is refused. */
  lemma AllowedFileRejectsFinalExe()
    ensures !AllowedFile("a.png.exe")
  {
    var stem, ext := "a.png", "exe";
    LowerKeepsLowerCase(ext);
    assert ext[0] == 'e' && forall x | x in AllowedExtensions :: x[0] != 'e';
    AllowedFileLastDot(stem, ext);
    assert "a.png.exe" == stem + "." + ext;
  }

  /** Worked case: only the last dot counts, so a final ".png" is accepted. */
  lemma AllowedFileAcceptsFinalPng()
    ensures AllowedFile("a.exe.png")
  {
    var stem, ext := "a.exe", "png";
    assert Lower(ext) in AllowedExtensions by { LowerKeepsLowerCase(ext); }
    assert "a.exe.png" == stem + "." + ext;
    AllowedFileLastDot(stem, ext);
  }

  /** Worked case: a trailing dot leaves an empty extension, which is refused. */
  lemma AllowedFileRejectsTrailingDot()
    ensures !AllowedFile("x.")
  {
    var stem, ext := "x", "";
    AllowedFileLastDot(stem, ext);
    assert "x." == stem + "." + ext;
    assert Lower(ext) == "";
  }

  /** Worked case: a leading dot leaves an empty stem, and ".png" is accepted. */
  lemma AllowedFileAcceptsLeadingDot()
    ensures AllowedFile(".png")
  {
    var stem, ext := "", "png";
    assert Lower(ext) in AllowedExtensions by { LowerKeepsLowerCase(ext); }
    assert ".png" == stem + "." + ext;
    AllowedFileLastDot(stem, ext);
  }

  /** Worked case: an upper-case extension is accepted. */
  lemma AllowedFileUpperCaseExample()
    ensures AllowedFile("SCAN.JPG")
  {
    var stem, ext := "SCAN", "JPG";
    assert LowerChar('J') == 'j' && LowerChar('P') == 'p' && LowerChar('G') == 'g';
    assert Lower(ext) == "jpg";
    AllowedFileLastDot(stem, ext);
    assert "SCAN.JPG" == stem + "." + ext;
  }

  /** The outcome of a request guard: go on, or answer with an error. */
  datatype Verdict = Proceed | Reject(status: nat, message: string)

  /** The checks at the top of the upload handler. `file` is `None` when the
      request carries no file part, otherwise the uploaded file's name. */
  function UploadGuard(file: Option<string>): (v: Verdict)
    ensures file.None? ==> v == Reject(400, "No file uploaded")
    ensures file.Some? && file.value == "" ==> v == Reject(400, "Invalid file type")
    ensures file.Some? && !AllowedFile(file.value) ==> v == Reject(400, "Invalid file type")
    ensures file.Some? && AllowedFile(file.value) ==> v == Proceed
    ensures v.Proceed? ==>
      && file.Some?
      && GetExtension(file.value).Some?
      && GetExtension(file.value).value in AllowedExtensions
  {
    match file
    case None => Reject(400, "No file uploaded")
    case Some(filename) =>
      if filename == "" || !AllowedFile(filename) then Reject(400, "Invalid file type")
      else Proceed
  }

  /** The empty-name test of the upload guard is subsumed by `allowed_file`. */
  lemma UploadGuardAcceptsAllowed(filename: string)
    ensures UploadGuard(Some(filename)) == Proceed <==> AllowedFile(filename)
  {
    if filename == "" {
      AllowedFileNeedsDot(filename);
    }
  }

  /** The 29 code points for which `str.isspace()` holds: the characters
      `str.strip()` removes when called without arguments. */
  predicate IsSpace(c: char) {
    || '\t' <= c <= '\r'
    || '\U{001C}' <= c <= ' '
    || c == '\U{0085}' || c == '\U{00A0}' || c == '\U{1680}'
    || '\U{2000}' <= c <= '\U{200A}'
    || c == '\U{2028}' || c == '\U{2029}' || c == '\U{202F}' || c == '\U{205F}' || c == '\U{3000}'
  }

  /** No letter, digit or dot is whitespace; space, tab, line feed and
      carriage return are. */
  lemma IsSpaceClasses(c: char)
    ensures IsSpace(c) ==> !('0' <= c <= '9' || 'A' <= c <= 'Z' || 'a' <= c <= 'z' || c == '.')
    ensures c == ' ' || c == '\t' || c == '\n' || c == '\r' ==> IsSpace(c)
  {
  }

  /** Every character of `s` from `lo` up to `hi` is whitespace. */
  predicate AllSpace(s: string, lo: int, hi: int)
    requires 0 <= lo <= hi <= |s|
  {
    forall j | lo <= j < hi :: IsSpace(s[j])
  }

  /** `s.lstrip()`: the text after its leading whitespace. */
  function StripStart(s: string): (r: string)
    ensures |r| <= |s| && r == s[|s| - |r|..]
    ensures r == [] || !IsSpace(r[0])
    ensures forall i | 0 <= i < |s| - |r| :: IsSpace(s[i])
  {
    if s == [] || !IsSpace(s[0]) then s
    else
      var r := StripStart(s[1..]);
      assert forall i | 1 <= i < |s| - |r| :: s[i] == s[1..][i - 1];
      r
  }

  /** `s.rstrip()`: the text before its trailing whitespace. */
  function StripEnd(s: string): (r: string)
    ensures |r| <= |s| && r == s[..|r|]
    ensures r == [] || !IsSpace(r[|r| - 1])
    ensures forall i | |r| <= i < |s| :: IsSpace(s[i])
  {
    if s == [] || !IsSpace(s[|s| - 1]) then s
    else
      var r := StripEnd(s[..|s| - 1]);
      assert forall i | |r| <= i < |s| - 1 :: s[i] == s[..|s| - 1][i];
      r
  }

  /** How many characters `lstrip()` removes from the front of `s`. */
  function LeadingSpaces(s: string): nat {
    |s| - |StripStart(s)|
  }

  /** `s.strip()`. */
  function Strip(s: string): string {
    StripEnd(StripStart(s))
  }

  /** `strip()` leaves a text that neither starts nor ends with whitespace. */
  lemma StripEnds(s: string)
    ensures var r := Strip(s); r == [] || (!IsSpace(r[0]) && !IsSpace(r[|r| - 1]))
  {
    var t := StripStart(s);
    var r := StripEnd(t);
    assert r != [] ==> r[0] == t[0];
  }

  /** What `rstrip()` keeps of the suffix `t == s[i..]`, `r`, seen from the
      whole text: a slice followed only by whitespace. */
  lemma StripEndTail(s: string, t: string, r: string, i: nat)
    requires i <= |s| && t == s[i..] && r == StripEnd(t)
    ensures i + |r| <= |s| && r == s[i..i + |r|] && AllSpace(s, i + |r|, |s|)
  {
    forall j | i + |r| <= j < |s|
      ensures IsSpace(s[j])
    {
      assert s[j] == t[j - i];
    }
  }

  /** `strip()` keeps the slice of the text that starts where `lstrip()` stops;
      everything before and after that slice is whitespace. */
  lemma StripSlice(s: string)
    ensures var r, i := Strip(s), LeadingSpaces(s);
      i + |r| <= |s| && AllSpace(s, 0, i) && r == s[i..i + |r|] && AllSpace(s, i + |r|, |s|)
  {
    StripEndTail(s, StripStart(s), Strip(s), LeadingSpaces(s));
  }

  /** `not s.strip()` holds exactly when every character of `s` is whitespace. */
  lemma StripEmptyIffBlank(s: string)
    ensures Strip(s) == [] <==> forall i | 0 <= i < |s| :: IsSpace(s[i])
  {
    var t := StripStart(s);
    if Strip(s) == [] {
      assert t == [];
    } else if t != [] {
      assert !IsSpace(s[|s| - |t|]);
    }
  }

  /** The handler's reply to a transliteration request. */
  datatype Reply = Failure(status: nat, message: string) | Transliterated(text: string)

  /** The transliteration handler: a missing "text" field reads as the empty
      text, blank text is refused, anything else is transliterated. */
  function TransliterateRequest(text: Option<string>): (r: Reply)
    ensures
      var t := if text.Some? then text.value else "";
      && (r.Transliterated? <==> exists i | 0 <= i < |t| :: !IsSpace(t[i]))
      && (r.Transliterated? ==> r.text == Transliterate(t))
      && (r.Failure? ==> r == Failure(400, "No text provided"))
  {
    var t := match text case Some(s) => s case None => "";
    StripEmptyIffBlank(t);
    if Strip(t) == [] then Failure(400, "No text provided")
    else Transliterated(Transliterate(t))
  }
}
