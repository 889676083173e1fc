/** `getPageNumber`: the page number shown for a page image, taken from its
    file name. */
module FileUtils {
  import opened Wrappers
  import opened JsString
  import opened Files

  /** The image extensions of the first pattern (matched case-insensitively). */
  const ImageExtensions: set<string> := {"png", "jpg", "jpeg", "webp", "tiff", "avif"}

  /** The last index of `c` in `s`. */
  function LastIndexOf(s: string, c: char): (r: Option<nat>)
    ensures r.Some? ==> r.value < |s| && s[r.value] == c && c !in s[r.value + 1..]
    ensures r.None? ==> c !in s
  {
    if s == [] then None
    else if s[|s| - 1] == c then Some(|s| - 1)
    else
      var r := LastIndexOf(s[..|s| - 1], c);
      assert s == s[..|s| - 1] + [s[|s| - 1]];
      r
  }

  /** The length of the digit run that ends just before index `q`. */
  function DigitsBefore(s: string, q: nat): (n: nat)
    requires q <= |s|
    ensures n <= q
    ensures forall i | q - n <= i < q :: IsDigit(s[i])
    ensures n < q ==> !IsDigit(s[q - n - 1])
  {
    if q > 0 && IsDigit(s[q - 1]) then 1 + DigitsBefore(s, q - 1) else 0
  }

  /** `/(\d+)\.(?:ext|...)$/` with the given extensions: the digits right
      before the final `.`, when what follows that `.` is one of `exts`
      (after `toLowerCase` when `ignoreCase`). Any match ends at the end of
      the name, so its `.` is the last one, and the leftmost match takes the
      whole digit run before it. */
  function SuffixNumber(name: string, exts: set<string>, ignoreCase: bool): (r: Option<string>)
    ensures r.Some? ==> r.value != [] && forall i | 0 <= i < |r.value| :: IsDigit(r.value[i])
  {
    match LastIndexOf(name, '.')
    case None => None
    case Some(q) =>
      var ext := if ignoreCase then Lower(name[q + 1..]) else name[q + 1..];
      var n := DigitsBefore(name, q);
      if ext in exts && n > 0 then Some(name[q - n..q]) else None
  }

  /** `/-(\d+)r?\./i` tried at index `p`: a `-`, digits, an optional `r` or
      `R`, then a `.`.  The greedy digit run cannot give back a digit to
      `r?\.`, so only the whole run can match. */
  function DashNumberAt(s: string, p: nat): (r: Option<string>)
    ensures r.Some? ==> r.value != [] && forall i | 0 <= i < |r.value| :: IsDigit(r.value[i])
  {
    if p < |s| && s[p] == '-' then
      var d := DigitRun(s[p + 1..]);
      var e := p + 1 + d;
      if d > 0 && e < |s| && (s[e] == '.' || ((s[e] == 'r' || s[e] == 'R') && e + 1 < |s| && s[e + 1] == '.'))
      then Some(s[p + 1..e])
      else None
    else None
  }

  /** The leftmost match of `/-(\d+)r?\./i` at or after `p`. */
  function DashNumber(s: string, p: nat): (r: Option<string>)
    ensures r.Some? ==> r.value != [] && forall i | 0 <= i < |r.value| :: IsDigit(r.value[i])
    decreases |s| - p
  {
    if p >= |s| then None
    else if DashNumberAt(s, p).Some? then DashNumberAt(s, p)
    else DashNumber(s, p + 1)
  }

  /** A match of the dash pattern is the one at the leftmost index where it
      matches. */
  lemma {:induction false} DashNumberLeftmost(s: string, p: nat)
    requires DashNumber(s, p).Some?
    ensures exists k | p <= k < |s| :: DashNumberAt(s, k) == DashNumber(s, p) && forall j | p <= j < k :: DashNumberAt(s, j).None?
    decreases |s| - p
  {
    if DashNumberAt(s, p).None? {
      var r := DashNumber(s, p + 1);
      assert DashNumber(s, p) == r;
      DashNumberLeftmost(s, p + 1);
      var k :| p + 1 <= k < |s| && DashNumberAt(s, k) == r && forall j | p + 1 <= j < k :: DashNumberAt(s, j).None?;
      assert forall j | p <= j < k :: DashNumberAt(s, j).None?;
    }
  }

  /** The dash pattern finds nothing only where it matches at no index. */
  lemma {:induction false} DashNumberNone(s: string, p: nat)
    requires DashNumber(s, p).None?
    ensures forall k | p <= k :: DashNumberAt(s, k).None?
    decreases |s| - p
  {
    if p < |s| {
      assert DashNumberAt(s, p).None?;
      DashNumberNone(s, p + 1);
    }
  }

  /** The leftmost match of `/(\d+)/` at or after `p`: the first digit run. */
  function FirstDigits(s: string, p: nat): (r: Option<string>)
    requires p <= |s|
    ensures r.Some? ==> r.value != [] && forall i | 0 <= i < |r.value| :: IsDigit(r.value[i])
    ensures r.None? <==> forall i | p <= i < |s| :: !IsDigit(s[i])
    decreases |s| - p
  {
    if p == |s| then None
    else if IsDigit(s[p]) then Some(s[p..p + DigitRun(s[p..])])
    else FirstDigits(s, p + 1)
  }

  /** The three patterns of `getPageNumber`, tried in this order. */
  datatype Pattern = ImageSuffix | DashPage | AnyDigits

  const Patterns: seq<Pattern> := [ImageSuffix, DashPage, AnyDigits]

  /** `name.match(pattern)`, reduced to the captured digits. */
  function MatchPattern(pattern: Pattern, name: string): (r: Option<string>)
    ensures r.Some? ==> r.value != [] && forall i | 0 <= i < |r.value| :: IsDigit(r.value[i])
  {
    match pattern
    case ImageSuffix => SuffixNumber(name, ImageExtensions, true)
    case DashPage => DashNumber(name, 0)
    case AnyDigits => FirstDigits(name, 0)
  }

  /** A one-digit number gets a leading `0`; longer ones are kept verbatim. */
  function Pad(num: string): (r: string)
    ensures |num| == 1 ==> r == "0" + num
    ensures |num| != 1 ==> r == num
  {
    if |num| == 1 then "0" + num else num
  }

  /** The page number of a name: the first pattern that matches, padded. */
  function PageNumberOf(name: string, patterns: seq<Pattern>): string {
    if patterns == [] then ""
    else match MatchPattern(patterns[0], name)
      case Some(num) => Pad(num)
      case None => PageNumberOf(name, patterns[1..])
  }

  /** `getPageNumber(file)`: the loop over the patterns, returning at the
      first match. */
  method GetPageNumber(file: FileData) returns (page: string)
    ensures page == PageNumberOf(file.name, Patterns)
  {
    for k := 0 to |Patterns|
      invariant PageNumberOf(file.name, Patterns[k..]) == PageNumberOf(file.name, Patterns)
    {
      assert Patterns[k..][1..] == Patterns[k + 1..];
      var m := MatchPattern(Patterns[k], file.name);
      if m.Some? {
        return Pad(m.value);
      }
    }
    return "";
  }

  /** `getPageNumber` tries the image-suffix pattern, then the dash
      pattern, then any digit run. */
  lemma PageNumberCases(name: string)
    ensures var m1, m2, m3 := MatchPattern(ImageSuffix, name), MatchPattern(DashPage, name), MatchPattern(AnyDigits, name);
      PageNumberOf(name, Patterns) ==
        if m1.Some? then Pad(m1.value) else if m2.Some? then Pad(m2.value) else if m3.Some? then Pad(m3.value) else ""
  {
    var m1, m2, m3 := MatchPattern(ImageSuffix, name), MatchPattern(DashPage, name), MatchPattern(AnyDigits, name);
    var p3 := PageNumberOf(name, [AnyDigits]);
    assert p3 == if m3.Some? then Pad(m3.value) else "" by {
      assert [AnyDigits][0] == AnyDigits && [AnyDigits][1..] == [];
      assert PageNumberOf(name, []) == "";
    }
    var p2 := PageNumberOf(name, [DashPage, AnyDigits]);
    assert p2 == if m2.Some? then Pad(m2.value) else p3 by {
      assert [DashPage, AnyDigits][1..] == [AnyDigits];
    }
    assert Patterns[1..] == [DashPage, AnyDigits];
  }

  /** The page number is empty exactly when the name has no digit; otherwise
      it is all digits and at least two long. */
  lemma PageNumberForm(name: string)
    ensures var r := PageNumberOf(name, Patterns);
      && (r == "" <==> forall i | 0 <= i < |name| :: !IsDigit(name[i]))
      && (r != "" ==> |r| >= 2 && forall i | 0 <= i < |r| :: IsDigit(r[i]))
  {
    PageNumberCases(name);
    var m1, m2, m3 := MatchPattern(ImageSuffix, name), MatchPattern(DashPage, name), MatchPattern(AnyDigits, name);
    if m1.Some? {
      DigitsInName(name, m1.value);
      PadDigits(m1.value);
    } else if m2.Some? {
      DigitsInName(name, m2.value);
      PadDigits(m2.value);
    } else if m3.Some? {
      PadDigits(m3.value);
    }
  }

  /** Padding keeps a number all digits and makes it at least two long. */
  lemma PadDigits(num: string)
    requires num != [] && forall i | 0 <= i < |num| :: IsDigit(num[i])
    ensures |Pad(num)| >= 2 && forall i | 0 <= i < |Pad(num)| :: IsDigit(Pad(num)[i])
  {
    if |num| == 1 {
      assert Pad(num) == ['0', num[0]];
    }
  }

  /** A name some pattern matches has a digit, so the last pattern matches
      too. */
  lemma DigitsInName(name: string, num: string)
    requires MatchPattern(ImageSuffix, name) == Some(num) || MatchPattern(DashPage, name) == Some(num)
    ensures FirstDigits(name, 0).Some?
  {
    if MatchPattern(ImageSuffix, name) == Some(num) {
      var q := LastIndexOf(name, '.').value;
      var n := DigitsBefore(name, q);
      assert IsDigit(name[q - n]);
    } else {
      DashNumberLeftmost(name, 0);
      var k :| 0 <= k < |name| && DashNumberAt(name, k) == Some(num);
      assert IsDigit(name[k + 1..][0]);
    }
  }

  /** A name ending in digits, `.` and an image extension (in any case)
      gets those digits, padded: `1.png` gives `01`, `page_012.JPG` gives
      `012`. */
  lemma ImageNamePage(prefix: string, digits: string, ext: string)
    requires prefix == [] || !IsDigit(prefix[|prefix| - 1])
    requires digits != [] && forall i | 0 <= i < |digits| :: IsDigit(digits[i])
    requires Lower(ext) in ImageExtensions && '.' !in ext
    ensures PageNumberOf(prefix + digits + "." + ext, Patterns) == Pad(digits)
  {
    var name := prefix + digits + "." + ext;
    SuffixNumberOf(prefix, digits, ext, ImageExtensions, true);
    PageNumberCases(name);
  }

  /** A suffix pattern captures the whole digit run before the extension. */
  lemma SuffixNumberOf(prefix: string, digits: string, ext: string, exts: set<string>, ignoreCase: bool)
    requires prefix == [] || !IsDigit(prefix[|prefix| - 1])
    requires digits != [] && forall i | 0 <= i < |digits| :: IsDigit(digits[i])
    requires (if ignoreCase then Lower(ext) else ext) in exts && '.' !in ext
    ensures SuffixNumber(prefix + digits + "." + ext, exts, ignoreCase) == Some(digits)
  {
    var front := prefix + digits;
    var name := front + "." + ext;
    var q := |front|;
    LastDot(front, ext);
    assert name[q + 1..] == ext;
    assert name[..q] == front;
    DigitsBeforeOf(name, prefix, digits, q);
    assert name[q - |digits|..q] == digits by {
      assert name[q - |digits|..q] == name[..q][|prefix|..];
    }
  }

  lemma {:induction false} LastDot(front: string, ext: string)
    requires '.' !in ext
    ensures LastIndexOf(front + "." + ext, '.') == Some(|front|)
  {
    var name := front + "." + ext;
    if ext == [] {
      assert name[|name| - 1] == '.';
    } else {
      var init := ext[..|ext| - 1];
      assert name[|name| - 1] == ext[|ext| - 1];
      assert ext[|ext| - 1] in ext;
      assert name[..|name| - 1] == front + "." + init;
      assert '.' !in init by {
        assert forall c | c in init :: c in ext;
      }
      LastDot(front, init);
    }
  }

  lemma DigitsBeforeOf(name: string, prefix: string, digits: string, q: nat)
    requires q == |prefix| + |digits| <= |name| && name[..q] == prefix + digits
    requires prefix == [] || !IsDigit(prefix[|prefix| - 1])
    requires forall i | 0 <= i < |digits| :: IsDigit(digits[i])
    ensures DigitsBefore(name, q) == |digits|
  {
    var n := DigitsBefore(name, q);
    assert forall i | 0 <= i < |digits| :: name[|prefix| + i] == digits[i] by {
      forall i | 0 <= i < |digits| ensures name[|prefix| + i] == digits[i] {
        assert name[..q][|prefix| + i] == (prefix + digits)[|prefix| + i];
      }
    }
    if |prefix| > 0 {
      assert name[..q][|prefix| - 1] == prefix[|prefix| - 1];
    }
  }
}
