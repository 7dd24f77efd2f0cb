/** File-name filtering and path hashing (src/utils/fileFilters.ts). */
module FileFilters {
  import opened Text

  /** The allow-list of image extensions, lower-case and with the leading dot. */
  const ImageExtensions: seq<string> :=
    [".jpg", ".jpeg", ".png", ".gif", ".webp", ".bmp", ".svg", ".tiff", ".tif", ".heic", ".heif"]

  /** The extension of a file name: "" when it has no '.', otherwise the
      lower-cased suffix that starts at the last '.'. */
  function GetFileExtension(filename: string): (ext: string)
    ensures ext == "" <==> '.' !in filename
    ensures |ext| <= |filename|
    ensures ext != "" ==> ext[0] == '.' && '.' !in ext[1..]
    ensures ext != "" ==> ext == ToLower(filename[|filename| - |ext|..])
  {
    var lastDot := LastIndexOf(filename, '.');
    if lastDot == -1 then ""
    else
      var ext := ToLower(filename[lastDot..]);
      assert ext[1..] == ToLower(filename[lastDot + 1..]);
      LowerKeepsDots(filename[lastDot + 1..]);
      ext
  }

  /** True when the extension of the name is on the allow-list. */
  predicate IsImageFile(filename: string) {
    GetFileExtension(filename) in ImageExtensions
  }

  /** Lower-casing neither creates nor removes a '.'. */
  lemma LowerKeepsDots(s: string)
    ensures '.' in ToLower(s) <==> '.' in s
  {
    if '.' in s {
      var i :| 0 <= i < |s| && s[i] == '.';
      assert ToLower(s)[i] == '.';
    }
    if '.' in ToLower(s) {
      var i :| 0 <= i < |s| && ToLower(s)[i] == '.';
      assert s[i] == '.';
    }
  }

  /** Every allow-listed extension is one '.' followed by dot-free text. */
  predicate ExtensionShaped(e: string) {
    |e| >= 2 && e[0] == '.' && '.' !in e[1..]
  }

  lemma AllowListShaped()
    ensures forall k :: 0 <= k < |ImageExtensions| ==> ExtensionShaped(ImageExtensions[k])
  {
  }

  /** The name ends, ignoring ASCII case, with the allow-listed extension `e`. */
  predicate EndsWithIgnoringCase(filename: string, e: string) {
    |e| <= |filename| && ToLower(filename[|filename| - |e|..]) == e
  }

  /** `IsImageFile` is exactly "the name ends, case-insensitively, with one of
      the allow-listed extensions". */
  lemma {:induction false} IsImageFileIffAllowedSuffix(filename: string)
    ensures IsImageFile(filename) <==>
      exists k :: 0 <= k < |ImageExtensions| && EndsWithIgnoringCase(filename, ImageExtensions[k])
  {
    var ext := GetFileExtension(filename);
    if IsImageFile(filename) {
      var k :| 0 <= k < |ImageExtensions| && ImageExtensions[k] == ext;
      assert EndsWithIgnoringCase(filename, ImageExtensions[k]);
    }
    if exists k :: 0 <= k < |ImageExtensions| && EndsWithIgnoringCase(filename, ImageExtensions[k]) {
      var k :| 0 <= k < |ImageExtensions| && EndsWithIgnoringCase(filename, ImageExtensions[k]);
      AllowListShaped();
      SuffixIsExtension(filename, ImageExtensions[k]);
    }
  }

  /** A suffix that lower-cases to an extension-shaped string is the extension. */
  lemma SuffixIsExtension(filename: string, e: string)
    requires ExtensionShaped(e)
    requires EndsWithIgnoringCase(filename, e)
    ensures GetFileExtension(filename) == e
  {
    var m := |filename| - |e|;
    assert LowerChar(filename[m]) == e[0] == '.';
    assert filename[m] == '.';
    forall j | m < j < |filename|
      ensures filename[j] != '.'
    {
      assert LowerChar(filename[j]) == e[j - m];
      assert e[j - m] in e[1..];
    }
    var r := LastIndexOf(filename, '.');
    assert filename[m] in filename[m..];
    assert r == m;
  }

  /** `LastIndexOf` of '.' is unchanged by lower-casing. */
  lemma {:induction false} LastDotOfLower(s: string)
    ensures LastIndexOf(ToLower(s), '.') == LastIndexOf(s, '.')
  {
    if |s| > 0 {
      assert ToLower(s)[..|s| - 1] == ToLower(s[..|s| - 1]);
      LastDotOfLower(s[..|s| - 1]);
    }
  }

  /** Extension matching ignores case: lower-casing the name changes nothing. */
  lemma ExtensionIgnoresCase(filename: string)
    ensures GetFileExtension(ToLower(filename)) == GetFileExtension(filename)
    ensures IsImageFile(ToLower(filename)) == IsImageFile(filename)
  {
    LastDotOfLower(filename);
    var r := LastIndexOf(filename, '.');
    if r != -1 {
      ToLowerSuffix(filename, r);
      ToLowerIdempotent(filename[r..]);
    }
  }

  /** A name whose last '.' is at position `i` has the lower-cased suffix from `i` as extension. */
  lemma ExtensionAt(filename: string, i: nat)
    requires i < |filename| && filename[i] == '.' && '.' !in filename[i + 1..]
    ensures GetFileExtension(filename) == ToLower(filename[i..])
  {
    var r := LastIndexOf(filename, '.');
    assert filename[i] in filename;
    assert forall j :: r < j < |filename| ==> filename[j] != '.' by {
      forall j | r < j < |filename| ensures filename[j] != '.' {
        assert filename[j] == filename[r + 1..][j - r - 1];
      }
    }
    assert forall j :: i < j < |filename| ==> filename[j] != '.' by {
      forall j | i < j < |filename| ensures filename[j] != '.' {
        assert filename[j] == filename[i + 1..][j - i - 1];
      }
    }
  }

  /** The behaviour the file-filter tests pin down. */
  lemma IsImageFileEdgeCases()
    ensures !IsImageFile("")
    ensures IsImageFile(".jpg")
  {
    NoDotNoImage("");
    ExtensionAt(".jpg", 0);
    assert ToLower(".jpg") == ".jpg";
    assert ImageExtensions[0] == ".jpg";
  }

  /** A name without a '.' has no extension and is never an image file. */
  lemma NoDotNoImage(filename: string)
    requires '.' !in filename
    ensures GetFileExtension(filename) == "" && !IsImageFile(filename)
  {
    assert "" != ImageExtensions[0];
    AllowListShaped();
  }

  lemma IsImageFileRejectsReadme()
    ensures !IsImageFile("README")
  {
    var s := "README";
    assert forall i :: 0 <= i < |s| ==> s[i] != '.';
    NoDotNoImage(s);
  }

  lemma IsImageFileInFolder()
    ensures IsImageFile("folder/photo.jpg")
  {
    ExtensionAt("folder/photo.jpg", 12);
    assert "folder/photo.jpg"[12..] == ".jpg";
    assert ToLower(".jpg") == ".jpg";
    assert ImageExtensions[0] == ".jpg";
  }

  lemma IsImageFileUpperCase()
    ensures IsImageFile("photo.JPG")
  {
    ExtensionAt("photo.JPG", 5);
    assert "photo.JPG"[5..] == ".JPG";
    assert ToLower(".JPG") == ".jpg";
    assert ImageExtensions[0] == ".jpg";
  }

  lemma ExtensionOfDottedName()
    ensures GetFileExtension("my.photo.jpg") == ".jpg"
  {
    ExtensionAt("my.photo.jpg", 8);
    assert "my.photo.jpg"[8..] == ".jpg";
    assert ToLower(".jpg") == ".jpg";
  }

  lemma IsImageFileRejectsPdf()
    ensures !IsImageFile("doc.pdf")
  {
    ExtensionAt("doc.pdf", 3);
    assert "doc.pdf"[3..] == ".pdf";
    assert ToLower(".pdf") == ".pdf";
  }

  // ---------------------------------------------------------------------
  // generateId: a 32-bit string hash rendered in base 36.

  const TwoTo31: int := 0x8000_0000
  const TwoTo32: int := 0x1_0000_0000

  /** JavaScript's ToInt32: reduce modulo 2^32 into the signed range. */
  function ToInt32(x: int): (r: int)
    ensures -TwoTo31 <= r < TwoTo31
    ensures (x - r) % TwoTo32 == 0
  {
    var m := x % TwoTo32;
    if m >= TwoTo31 then m - TwoTo32 else m
  }

  /** Values congruent modulo 2^32 wrap to the same 32-bit integer. */
  lemma ToInt32Congruent(a: int, b: int)
    requires (a - b) % TwoTo32 == 0
    ensures ToInt32(a) == ToInt32(b)
  {
    var k := (a - b) / TwoTo32;
    assert a == b + k * TwoTo32;
    ModShift(b, k);
  }

  lemma ModShift(b: int, k: int)
    ensures (b + k * TwoTo32) % TwoTo32 == b % TwoTo32
  {
  }

  /** The UTF-16 code units of one character (`charCodeAt` sees these). */
  function CodeUnits(c: char): (units: seq<int>)
    ensures 1 <= |units| <= 2
    ensures forall i :: 0 <= i < |units| ==> 0 <= units[i] < 0x10000
  {
    if c as int < 0x10000 then [c as int]
    else
      var v := c as int - 0x10000;
      [0xD800 + v / 0x400, 0xDC00 + v % 0x400]
  }

  /** The UTF-16 code units of a string, in order. */
  function Utf16(s: string): (units: seq<int>)
    ensures |s| <= |units| <= 2 * |s|
    ensures forall i :: 0 <= i < |units| ==> 0 <= units[i] < 0x10000
  {
    if |s| == 0 then [] else Utf16(s[..|s| - 1]) + CodeUnits(s[|s| - 1])
  }

  /** One step of the loop, as written: `hash = (hash << 5) - hash + char; hash |= 0`. */
  function HashStep(h: int, unit: int): (r: int)
    ensures -TwoTo31 <= r < TwoTo31
  {
    ToInt32(ToInt32(ToInt32(h) * 32) - h + unit)
  }

  /** Each step is the 32-bit wrap of `31 * h + c`. */
  lemma HashStepIsWrappedPolynomial(h: int, unit: int)
    requires -TwoTo31 <= h < TwoTo31
    ensures HashStep(h, unit) == ToInt32(31 * h + unit)
  {
    assert ToInt32(h) == h by {
      ToInt32Congruent(h, h % TwoTo32);
    }
    var s := ToInt32(h * 32);
    assert (s - h + unit) - (31 * h + unit) == s - h * 32;
    assert ((h * 32) - s) % TwoTo32 == 0;
    NegMod(h * 32 - s);
    ToInt32Congruent(s - h + unit, 31 * h + unit);
  }

  lemma NegMod(x: int)
    requires x % TwoTo32 == 0
    ensures (-x) % TwoTo32 == 0
  {
    var k := x / TwoTo32;
    assert x == k * TwoTo32;
    assert -x == (-k) * TwoTo32;
  }

  /** The hash of a sequence of code units, folding `HashStep` from 0 left to right. */
  function Hash(units: seq<int>): (h: int)
    ensures -TwoTo31 <= h < TwoTo31
  {
    if |units| == 0 then 0 else HashStep(Hash(units[..|units| - 1]), units[|units| - 1])
  }

  /** 31 to the power `k`. */
  function Pow31(k: nat): (p: nat)
    ensures p >= 1
  {
    if k == 0 then 1 else 31 * Pow31(k - 1)
  }

  /** The polynomial the hash computes before any wrap-around: the sum of
      `units[i] * 31^(|units| - 1 - i)`, summed from the first unit. */
  function Poly31(units: seq<int>): int {
    if |units| == 0 then 0 else units[0] * Pow31(|units| - 1) + Poly31(units[1..])
  }

  /** Appending a unit multiplies the polynomial by 31 and adds the unit. */
  lemma {:induction false} Poly31Snoc(units: seq<int>, x: int)
    ensures Poly31(units + [x]) == 31 * Poly31(units) + x
  {
    if |units| == 0 {
      assert units + [x] == [x];
    } else {
      var s := units + [x];
      assert s[1..] == units[1..] + [x];
      Poly31Snoc(units[1..], x);
      assert units[0] * Pow31(|units|) == 31 * (units[0] * Pow31(|units| - 1));
    }
  }

  lemma MulMod(x: int)
    requires x % TwoTo32 == 0
    ensures (31 * x) % TwoTo32 == 0
  {
    var k := x / TwoTo32;
    assert x == k * TwoTo32;
    assert 31 * x == (31 * k) * TwoTo32;
  }

  /** Values congruent modulo 2^32 stay congruent after one polynomial step. */
  lemma WrapStep(p: int, h: int, unit: int)
    requires (p - h) % TwoTo32 == 0
    ensures ToInt32(31 * p + unit) == ToInt32(31 * h + unit)
  {
    MulMod(p - h);
    assert (31 * p + unit) - (31 * h + unit) == 31 * (p - h);
    ToInt32Congruent(31 * p + unit, 31 * h + unit);
  }

  /** Wrapping to 32 bits after every step gives the same hash as computing
      the whole polynomial exactly and wrapping once at the end. */
  lemma {:induction false} HashIsWrappedPolynomial(units: seq<int>)
    ensures Hash(units) == ToInt32(Poly31(units))
  {
    if |units| > 0 {
      var front, last := units[..|units| - 1], units[|units| - 1];
      HashIsWrappedPolynomial(front);
      var p, h := Poly31(front), Hash(front);
      assert h == ToInt32(p);
      assert (p - h) % TwoTo32 == 0;
      assert Hash(units) == HashStep(h, last);
      HashStepIsWrappedPolynomial(h, last);
      assert units == front + [last];
      Poly31Snoc(front, last);
      assert Poly31(units) == 31 * p + last;
      WrapStep(p, h, last);
    }
  }

  /** The hash loop of `generateId`, over the UTF-16 code units of the path. */
  method HashPath(path: string) returns (h: int)
    ensures h == Hash(Utf16(path))
    ensures h == ToInt32(Poly31(Utf16(path)))
    ensures -TwoTo31 <= h < TwoTo31
  {
    var units := Utf16(path);
    h := 0;
    var i := 0;
    while i < |units|
      invariant 0 <= i <= |units|
      invariant h == Hash(units[..i])
    {
      assert units[..i + 1][..i] == units[..i];
      h := HashStep(h, units[i]);
      i := i + 1;
    }
    assert units[..|units|] == units;
    HashIsWrappedPolynomial(units);
  }

  function Abs(x: int): nat {
    if x < 0 then -x else x
  }

  /** The base-36 digit for 0 <= d < 36, as `toString(36)` writes it. */
  function Digit36(d: nat): char
    requires d < 36
  {
    if d < 10 then ('0' as int + d) as char else ('a' as int + d - 10) as char
  }

  function DigitValue36(c: char): nat {
    if '0' <= c <= '9' then c as int - '0' as int
    else if 'a' <= c <= 'z' then c as int - 'a' as int + 10
    else 0
  }

  predicate IsDigit36(c: char) {
    '0' <= c <= '9' || 'a' <= c <= 'z'
  }

  /** `n.toString(36)` for a non-negative integer: digits with no leading zero. */
  function ToBase36(n: nat): (s: string)
    ensures |s| >= 1
    ensures forall i :: 0 <= i < |s| ==> IsDigit36(s[i])
    ensures |s| > 1 ==> s[0] != '0'
  {
    if n < 36 then [Digit36(n)] else ToBase36(n / 36) + [Digit36(n % 36)]
  }

  /** Reads a base-36 numeral back. */
  function FromBase36(s: string): nat {
    if |s| == 0 then 0 else FromBase36(s[..|s| - 1]) * 36 + DigitValue36(s[|s| - 1])
  }

  /** Reading back a rendered numeral gives the number. */
  lemma {:induction false} Base36RoundTrip(n: nat)
    ensures FromBase36(ToBase36(n)) == n
  {
    if n >= 36 {
      Base36RoundTrip(n / 36);
      var s := ToBase36(n);
      assert s[..|s| - 1] == ToBase36(n / 36);
    }
  }

  /** `generateId(path)`: "id_" followed by the base-36 rendering of |hash|. */
  function GenerateId(path: string): (id: string)
    ensures |id| >= 4 && id[..3] == "id_"
    ensures forall i :: 3 <= i < |id| ==> IsDigit36(id[i])
    ensures |id| > 4 ==> id[3] != '0'
    ensures FromBase36(id[3..]) == Abs(Hash(Utf16(path)))
    ensures Abs(Hash(Utf16(path))) <= TwoTo31
  {
    var n := Abs(Hash(Utf16(path)));
    Base36RoundTrip(n);
    var id := "id_" + ToBase36(n);
    assert id[3..] == ToBase36(n);
    id
  }
}
