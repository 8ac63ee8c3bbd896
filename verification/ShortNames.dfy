/** 8.3 file names: what a path normalises to, and what the directory lister prints. */
module ShortNames {
  import opened Common
  import opened Bytes
  import opened FatDirectory

  const SPACE: byte := 0x20
  const DOT: byte := 0x2E
  const SLASH: byte := 0x2F

  /** A C string without its terminator. */
  ghost predicate IsPath(path: seq<byte>) {
    0 !in path
  }

  function ToUpper(ch: byte): byte {
    if 0x61 <= ch <= 0x7A then ch - 0x20 else ch
  }

  function Upper(s: seq<byte>): (r: seq<byte>)
    ensures |r| == |s| && forall i :: 0 <= i < |s| ==> r[i] == ToUpper(s[i])
  {
    seq(|s|, i requires 0 <= i < |s| => ToUpper(s[i]))
  }

  function Padded(s: seq<byte>, width: nat): (r: seq<byte>)
    requires |s| <= width
    ensures |r| == width
    ensures forall i :: 0 <= i < width ==> r[i] == if i < |s| then s[i] else SPACE
  {
    s + seq(width - |s|, _ => SPACE)
  }

  function StripSlashes(path: seq<byte>): (p: seq<byte>)
    ensures |p| <= |path| && p == path[|path| - |p|..]
    ensures p == [] || p[0] != SLASH
  {
    if path != [] && path[0] == SLASH then StripSlashes(path[1..]) else path
  }

  /** The position of the first dot, or the length. */
  function FirstDot(p: seq<byte>): (d: nat)
    ensures d <= |p| && DOT !in p[..d]
    ensures d < |p| ==> p[d] == DOT
  {
    if p == [] || p[0] == DOT then 0 else 1 + FirstDot(p[1..])
  }

  function Base(p: seq<byte>): seq<byte> {
    p[..FirstDot(p)]
  }

  function Extension(p: seq<byte>): seq<byte> {
    if FirstDot(p) < |p| then p[FirstDot(p) + 1..] else []
  }

  /** One to eight characters, and after an only dot at most three more. */
  predicate Fits83(p: seq<byte>) {
    1 <= |Base(p)| <= 8 && |Extension(p)| <= 3 && DOT !in Extension(p)
  }

  function Fields(base: seq<byte>, extension: seq<byte>): Name
    requires |base| <= 8 && |extension| <= 3
  {
    Padded(Upper(base), 8) + Padded(Upper(extension), 3)
  }

  /** The 11-byte directory name of a path, if it has one. */
  function ShortName(path: seq<byte>): Option<Name> {
    var p := StripSlashes(path);
    if Fits83(p) then Some(Fields(Base(p), Extension(p))) else None
  }

  lemma FieldsAt(base: seq<byte>, extension: seq<byte>, k: nat)
    requires |base| <= 8 && |extension| <= 3 && k < NAME_SIZE
    ensures Fields(base, extension)[k] ==
              if k < |base| then ToUpper(base[k])
              else if 8 <= k < 8 + |extension| then ToUpper(extension[k - 8])
              else SPACE
  {
  }

  lemma BaseGrows(base: seq<byte>, extension: seq<byte>, ch: byte)
    requires |base| < 8 && |extension| <= 3
    ensures Fields(base + [ch], extension) == Fields(base, extension)[|base| := ToUpper(ch)]
  {
    forall k | 0 <= k < NAME_SIZE
      ensures Fields(base + [ch], extension)[k] == Fields(base, extension)[|base| := ToUpper(ch)][k]
    {
      FieldsAt(base, extension, k);
      FieldsAt(base + [ch], extension, k);
    }
  }

  lemma ExtensionGrows(base: seq<byte>, extension: seq<byte>, ch: byte)
    requires |base| <= 8 && |extension| < 3
    ensures Fields(base, extension + [ch]) == Fields(base, extension)[8 + |extension| := ToUpper(ch)]
  {
    forall k | 0 <= k < NAME_SIZE
      ensures Fields(base, extension + [ch])[k] == Fields(base, extension)[8 + |extension| := ToUpper(ch)][k]
    {
      FieldsAt(base, extension, k);
      FieldsAt(base, extension + [ch], k);
    }
  }

  lemma {:induction false} IsFirstDot(p: seq<byte>, k: nat)
    requires k < |p| && p[k] == DOT && k <= FirstDot(p)
    ensures FirstDot(p) == k
  {
    hide FirstDot;
  }

  method SkipSlashes(path: seq<byte>) returns (p: seq<byte>)
    ensures p == StripSlashes(path)
  {
    p := path;
    while p != [] && p[0] == SLASH
      invariant StripSlashes(p) == StripSlashes(path)
      decreases |p|
    {
      p := p[1..];
    }
  }

  method Blank(normalized: array<byte>)
    requires normalized.Length == NAME_SIZE
    modifies normalized
    ensures normalized[..] == Fields([], [])
  {
    for i := 0 to NAME_SIZE
      invariant forall k :: 0 <= k < i ==> normalized[k] == SPACE
    {
      normalized[i] := SPACE;
    }
    forall k | 0 <= k < NAME_SIZE
      ensures Fields([], [])[k] == SPACE
    {
      FieldsAt([], [], k);
    }
  }

  /** `fat16_normalize_short_name`: it accepts the paths that split, and stores what their parts spell. */
  method NormalizeShortName(path: seq<byte>, normalized: array<byte>) returns (ok: bool)
    requires normalized.Length == NAME_SIZE
    modifies normalized
    ensures ok <==> ShortName(path).Some?
    ensures ok ==> normalized[..] == ShortName(path).value
    ensures ok <==> HasParts(path)
    ensures forall slashes, base, dotted, extension :: Splits(path, slashes, base, dotted, extension) ==>
              Names(normalized[..], base, extension)
  {
    var p := SkipSlashes(path);
    Blank(normalized);
    ok := CopyFields(p, normalized);
    hide ShortName, Splits;
    PartsAre(path);
  }

  /** The copying loop of `fat16_normalize_short_name`. */
  method CopyFields(p: seq<byte>, normalized: array<byte>) returns (ok: bool)
    requires normalized.Length == NAME_SIZE && normalized[..] == Fields([], [])
    modifies normalized
    ensures ok <==> Fits83(p)
    ensures ok ==> normalized[..] == Fields(Base(p), Extension(p))
  {
    hide Fields, FirstDot, ToUpper;
    ghost var d := FirstDot(p);
    var nameIndex, extIndex, inExtension := 0, 0, false;
    ghost var base, extension := [], [];
    for at := 0 to |p|
      invariant inExtension <==> d < at
      invariant nameIndex == |base| <= 8 && base == p[..if inExtension then d else at]
      invariant extIndex == |extension| <= 3 && extension == (if inExtension then p[d + 1..at] else [])
      invariant DOT !in extension
      invariant normalized[..] == Fields(base, extension)
    {
      if p[at] == DOT {
        if inExtension {
          assert Extension(p)[at - d - 1] == DOT;
          return false;
        }
        IsFirstDot(p, at);
        inExtension := true;
      } else if !inExtension {
        if nameIndex >= 8 {
          return false;
        }
        BaseGrows(base, extension, p[at]);
        base := base + [p[at]];
        normalized[nameIndex] := ToUpper(p[at]);
        nameIndex := nameIndex + 1;
      } else {
        if extIndex >= 3 {
          return false;
        }
        ExtensionGrows(base, extension, p[at]);
        extension := extension + [p[at]];
        normalized[8 + extIndex] := ToUpper(p[at]);
        extIndex := extIndex + 1;
      }
    }
    if inExtension {
      assert p[d + 1..|p|] == p[d + 1..];
    } else {
      assert d == |p| && p[..d] == p;
    }
    ok := nameIndex != 0;
  }

  // ---- what a name is, byte by byte ----

  ghost function Slashes(n: nat): seq<byte> {
    if n == 0 then [] else [SLASH] + Slashes(n - 1)
  }

  /** A path is slashes, a base, and perhaps a dot and an extension. */
  ghost predicate Splits(path: seq<byte>, slashes: nat, base: seq<byte>, dotted: bool, extension: seq<byte>) {
    && path == Slashes(slashes) + (base + if dotted then [DOT] + extension else [])
    && 1 <= |base| <= 8 && |extension| <= 3 && base[0] != SLASH && DOT !in base && DOT !in extension
    && (!dotted ==> extension == [])
  }

  /** One character of a field: lower-case letters become upper-case, and everything else is kept. */
  ghost predicate Spelled(ch: byte, b: byte) {
    if 0x61 <= ch <= 0x7A then b == ch - 0x20 else b == ch
  }

  /** The byte that belongs at position `k`. */
  ghost predicate SpelledAt(name: Name, base: seq<byte>, extension: seq<byte>, k: nat)
    requires k < NAME_SIZE
  {
    if k < 8 && k < |base| then Spelled(base[k], name[k])
    else if k >= 8 && k - 8 < |extension| then Spelled(extension[k - 8], name[k])
    else name[k] == 0x20
  }

  /** Base and extension, spelled, on the left of their fields of eight and three bytes, and blanks behind. */
  ghost predicate Names(name: Name, base: seq<byte>, extension: seq<byte>) {
    forall k: nat :: k < NAME_SIZE ==> SpelledAt(name, base, extension, k)
  }

  /** A path that splits has the name that its parts spell. */
  lemma {:induction false} SplitPathNamed(path: seq<byte>, slashes: nat, base: seq<byte>, dotted: bool,
                                          extension: seq<byte>)
    requires Splits(path, slashes, base, dotted, extension)
    ensures ShortName(path).Some? && Names(ShortName(path).value, base, extension)
  {
    hide FirstDot, StripSlashes, Base, Extension, Slashes, Fields;
    var rest := if dotted then [DOT] + extension else [];
    SlashesStripped(slashes, base + rest);
    FieldFound(base, rest);
    assert dotted ==> rest[1..] == extension;
    FieldsSpelled(base, extension);
  }

  lemma FieldsSpelled(base: seq<byte>, extension: seq<byte>)
    requires |base| <= 8 && |extension| <= 3
    ensures Names(Fields(base, extension), base, extension)
  {
    hide Fields;
    forall k: nat | k < NAME_SIZE
      ensures SpelledAt(Fields(base, extension), base, extension, k)
    {
      FieldsAt(base, extension, k);
    }
  }

  lemma {:induction false} StripOne(rest: seq<byte>)
    ensures StripSlashes([SLASH] + rest) == StripSlashes(rest)
  {
    assert ([SLASH] + rest)[1..] == rest;
  }

  lemma Regroup(a: seq<byte>, b: seq<byte>, c: seq<byte>)
    ensures a + b + c == a + (b + c)
  {
  }

  lemma OneSlash(n: nat)
    ensures Slashes(n + 1) == [SLASH] + Slashes(n) && Slashes(0) == []
  {
  }

  lemma {:induction false} NotStripped(p: seq<byte>)
    requires p == [] || p[0] != SLASH
    ensures StripSlashes(p) == p && [] + p == p
  {
  }

  lemma {:induction false} SlashesStripped(n: nat, p: seq<byte>)
    requires p == [] || p[0] != SLASH
    ensures StripSlashes(Slashes(n) + p) == p
  {
    hide StripSlashes, Slashes;
    if n == 0 {
      OneSlash(0);
      NotStripped(p);
    } else {
      SlashesStripped(n - 1, p);
      OneSlash(n - 1);
      Regroup([SLASH], Slashes(n - 1), p);
      StripOne(Slashes(n - 1) + p);
    }
  }

  /** And only such a path has a name. */
  lemma {:induction false} NamedPathSplits(path: seq<byte>) returns (slashes: nat)
    requires ShortName(path).Some?
    ensures var p := StripSlashes(path); Splits(path, slashes, Base(p), FirstDot(p) < |p|, Extension(p))
  {
    hide StripSlashes, FirstDot, Slashes, Fields;
    slashes := SlashCount(path);
    var p := StripSlashes(path);
    DotParts(p);
    assert Base(p)[0] == p[0];
  }

  lemma {:induction false} DotParts(p: seq<byte>)
    ensures p == Base(p) + (if FirstDot(p) < |p| then [DOT] + Extension(p) else [])
  {
    hide FirstDot;
    var d := FirstDot(p);
    if d < |p| {
      SplitAt(p, d);
    } else {
      assert p[..d] == p && p + [] == p;
    }
  }

  lemma SplitAt(p: seq<byte>, d: nat)
    requires d < |p|
    ensures p == p[..d] + ([p[d]] + p[d + 1..])
  {
    var q := [p[d]] + p[d + 1..];
    assert q == p[d..];
  }

  lemma {:induction false} SlashCount(path: seq<byte>) returns (n: nat)
    ensures path == Slashes(n) + StripSlashes(path)
  {
    if path != [] && path[0] == SLASH {
      n := SlashCount(path[1..]);
      Regroup([SLASH], Slashes(n), StripSlashes(path[1..]));
      SplitAt(path, 0);
      n := n + 1;
    } else {
      n := 0;
      assert [] + path == path;
    }
  }

  ghost predicate HasParts(path: seq<byte>) {
    exists slashes, base, dotted, extension :: Splits(path, slashes, base, dotted, extension)
  }

  lemma PartsAre(path: seq<byte>)
    ensures ShortName(path).Some? <==> HasParts(path)
    ensures forall slashes, base, dotted, extension :: Splits(path, slashes, base, dotted, extension) ==>
              ShortName(path).Some? && Names(ShortName(path).value, base, extension)
  {
    hide FirstDot, StripSlashes, Splits, Base, Extension, ShortName, Fields, Names;
    forall slashes, base, dotted, extension | Splits(path, slashes, base, dotted, extension)
      ensures ShortName(path).Some? && Names(ShortName(path).value, base, extension)
    {
      SplitPathNamed(path, slashes, base, dotted, extension);
    }
    if ShortName(path).Some? {
      var slashes := NamedPathSplits(path);
    }
  }

  /** No name has a lower-case letter. */
  lemma NoLowerCase(path: seq<byte>, k: nat)
    requires ShortName(path).Some? && k < NAME_SIZE
    ensures !(0x61 <= ShortName(path).value[k] <= 0x7A)
  {
    hide FirstDot, StripSlashes, Splits, Base, Extension, ShortName, Fields;
    var slashes := NamedPathSplits(path);
    var p := StripSlashes(path);
    SplitPathNamed(path, slashes, Base(p), FirstDot(p) < |p|, Extension(p));
    assert SpelledAt(ShortName(path).value, Base(p), Extension(p), k);
  }

  /** The same character, or the same letter in another case. */
  ghost predicate SameLetter(a: byte, b: byte) {
    a == b || (0x61 <= a <= 0x7A && b == a - 0x20) || (0x61 <= b <= 0x7A && a == b - 0x20)
  }

  ghost predicate SameLetters(s: seq<byte>, t: seq<byte>) {
    |s| == |t| && forall i :: 0 <= i < |s| ==> SameLetter(s[i], t[i])
  }

  /** Paths that differ in case only have the same name, or none. */
  lemma {:induction false} CaseBlind(p: seq<byte>, q: seq<byte>)
    requires SameLetters(p, q)
    ensures ShortName(p) == ShortName(q)
  {
    hide StripSlashes, FirstDot, Base, Extension, Fields, SameLetters;
    StripAlike(p, q);
    var s, t := StripSlashes(p), StripSlashes(q);
    DotAlike(s, t);
    assert |Base(s)| == |Base(t)| && |Extension(s)| == |Extension(t)| by { LengthAlike(s, t); }
    if Fits83(s) {
      FieldsAlike(Base(s), Extension(s), Base(t), Extension(t));
    }
  }

  lemma LengthAlike(s: seq<byte>, t: seq<byte>)
    requires SameLetters(Base(s), Base(t)) && SameLetters(Extension(s), Extension(t))
    ensures |Base(s)| == |Base(t)| && |Extension(s)| == |Extension(t)|
  {
    hide FirstDot, Base, Extension;
  }

  lemma FieldsAlike(base: seq<byte>, extension: seq<byte>, base': seq<byte>, extension': seq<byte>)
    requires |base| <= 8 && |extension| <= 3 && SameLetters(base, base') && SameLetters(extension, extension')
    ensures Fields(base, extension) == Fields(base', extension')
  {
    hide Fields;
    forall k: nat | k < NAME_SIZE
      ensures Fields(base, extension)[k] == Fields(base', extension')[k]
    {
      FieldsAt(base, extension, k);
      FieldsAt(base', extension', k);
    }
  }

  lemma {:induction false} StripAlike(p: seq<byte>, q: seq<byte>)
    requires SameLetters(p, q)
    ensures SameLetters(StripSlashes(p), StripSlashes(q))
  {
    if p != [] && p[0] == SLASH {
      StripAlike(p[1..], q[1..]);
    }
  }

  lemma {:induction false} DotAlike(p: seq<byte>, q: seq<byte>)
    requires SameLetters(p, q)
    ensures FirstDot(p) == FirstDot(q) && SameLetters(Base(p), Base(q)) && SameLetters(Extension(p), Extension(q))
    ensures DOT in Extension(p) <==> DOT in Extension(q)
  {
    FirstDotAlike(p, q);
    hide FirstDot;
    var e, f := Extension(p), Extension(q);
    if DOT in e {
      var i :| 0 <= i < |e| && e[i] == DOT;
      assert SameLetter(e[i], f[i]) && f[i] == DOT;
    }
    if DOT in f {
      var i :| 0 <= i < |f| && f[i] == DOT;
      assert SameLetter(e[i], f[i]) && e[i] == DOT;
    }
  }

  lemma {:induction false} FirstDotAlike(p: seq<byte>, q: seq<byte>)
    requires SameLetters(p, q)
    ensures FirstDot(p) == FirstDot(q)
  {
    if p != [] && p[0] != DOT {
      FirstDotAlike(p[1..], q[1..]);
    }
  }

  // ---- what the lister prints ----

  function NonSpaces(s: seq<byte>): (r: seq<byte>)
    ensures SPACE !in r && |r| <= |s|
    ensures forall b :: b in r ==> b in s
  {
    if s == [] then []
    else if s[|s| - 1] == SPACE then NonSpaces(s[..|s| - 1])
    else NonSpaces(s[..|s| - 1]) + [s[|s| - 1]]
  }

  function Printed(name: Name): (r: seq<byte>)
    ensures SPACE !in r
  {
    NonSpaces(name[..8]) + if name[8] != SPACE then [DOT] + NonSpaces(name[8..]) else []
  }

  method PrintName(name: Name) returns (filename: seq<byte>)
    ensures filename == Printed(name)
    ensures |filename| <= 12
  {
    filename := [];
    for i := 0 to 8
      invariant filename == NonSpaces(name[..i])
    {
      assert name[..i + 1][..i] == name[..i];
      if name[i] != SPACE {
        filename := filename + [name[i]];
      }
    }
    if name[8] != SPACE {
      ghost var base := filename;
      filename := filename + [DOT];
      for i := 8 to 11
        invariant filename == base + ([DOT] + NonSpaces(name[8..i]))
      {
        assert name[8..i + 1][..i - 8] == name[8..i];
        if name[i] != SPACE {
          filename := filename + [name[i]];
        }
      }
      assert name[8..11] == name[8..];
    }
  }

  // ---- printing and normalising again ----

  /** A field with nothing after its first space. */
  predicate PaddedRight(field: seq<byte>) {
    forall i, j :: 0 <= i < j < |field| && field[i] == SPACE ==> field[j] == SPACE
  }

  /** Names that can be told from what is printed. */
  predicate Canonical(name: Name) {
    name[0] != SPACE && PaddedRight(name[..8]) && PaddedRight(name[8..])
  }

  lemma {:induction false} NonSpacesOfPadded(field: seq<byte>)
    requires PaddedRight(field)
    ensures NonSpaces(field) <= field
    ensures forall i :: |NonSpaces(field)| <= i < |field| ==> field[i] == SPACE
  {
    if field != [] {
      NonSpacesOfPadded(field[..|field| - 1]);
    }
  }

  lemma {:induction false} FirstDotOf(base: seq<byte>, rest: seq<byte>)
    requires DOT !in base && (rest == [] || rest[0] == DOT)
    ensures FirstDot(base + rest) == |base|
  {
    if base == [] {
      assert base + rest == rest;
    } else {
      assert (base + rest)[1..] == base[1..] + rest;
      FirstDotOf(base[1..], rest);
    }
  }

  /** Upper-casing twice is upper-casing once, and keeps spaces and dots what they are. */
  lemma UpperFacts(s: seq<byte>)
    ensures Upper(Upper(s)) == Upper(s)
    ensures SPACE in Upper(s) <==> SPACE in s
    ensures DOT in Upper(s) <==> DOT in s
  {
    forall i | 0 <= i < |s|
      ensures Upper(s)[i] in Upper(s) && s[i] in s
      ensures (Upper(s)[i] == SPACE <==> s[i] == SPACE) && (Upper(s)[i] == DOT <==> s[i] == DOT)
    {
    }
  }

  lemma SpaceFreeField(s: seq<byte>, width: nat)
    requires |s| <= width && SPACE !in s
    ensures PaddedRight(Padded(Upper(s), width))
    ensures s != [] ==> Padded(Upper(s), width)[0] != SPACE
  {
    UpperFacts(s);
    assert forall i :: 0 <= i < |s| ==> Upper(s)[i] in Upper(s);
  }

  lemma SpaceFreeIsCanonical(path: seq<byte>)
    requires SPACE !in path && ShortName(path).Some?
    ensures Canonical(ShortName(path).value)
  {
    var p := StripSlashes(path);
    var name := ShortName(path).value;
    assert SPACE !in p && SPACE !in Base(p) && SPACE !in Extension(p);
    assert name[..8] == Padded(Upper(Base(p)), 8) && name[8..] == Padded(Upper(Extension(p)), 3);
    SpaceFreeField(Base(p), 8);
    SpaceFreeField(Extension(p), 3);
  }

  /** A padded field of upper-case characters is recovered from its non-space characters. */
  lemma FieldRecovered(s: seq<byte>, width: nat)
    requires |s| <= width && PaddedRight(Padded(Upper(s), width)) && DOT !in s
    ensures var t := NonSpaces(Padded(Upper(s), width));
            |t| <= width && DOT !in t && Padded(Upper(t), width) == Padded(Upper(s), width)
  {
    var field := Padded(Upper(s), width);
    var t := NonSpaces(field);
    NonSpacesOfPadded(field);
    UpperFacts(s);
    forall i | 0 <= i < |t|
      ensures Upper(t)[i] == field[i]
    {
      assert t[i] in t && t[i] == field[i] == ToUpper(s[i]);
    }
  }

  /** A field in front of a dot, or at the end, is found again. */
  lemma {:induction false} FieldFound(base: seq<byte>, rest: seq<byte>)
    requires base != [] && base[0] != SLASH && DOT !in base && (rest == [] || rest[0] == DOT)
    ensures StripSlashes(base + rest) == base + rest && Base(base + rest) == base
    ensures Extension(base + rest) == if rest == [] then [] else rest[1..]
  {
    FirstDotOf(base, rest);
    assert (base + rest)[..|base|] == base;
    if rest != [] {
      assert (base + rest)[|base| + 1..] == rest[1..];
    }
  }

  /** Two fields joined by a dot come apart again. */
  lemma {:induction false} JoinedFields(base: seq<byte>, extension: seq<byte>)
    requires base != [] && base[0] != SLASH && DOT !in base
    ensures StripSlashes(base) == base && Base(base) == base && Extension(base) == []
    ensures var q := base + ([DOT] + extension);
            StripSlashes(q) == q && Base(q) == base && Extension(q) == extension
  {
    hide StripSlashes, Base, Extension;
    FieldFound(base, []);
    assert base + [] == base;
    FieldFound(base, [DOT] + extension);
    assert ([DOT] + extension)[1..] == extension;
  }

  lemma PrintedComesApart(name: Name)
    requires PaddedRight(name[8..])
    requires var base := NonSpaces(name[..8]); base != [] && base[0] != SLASH && DOT !in base
    ensures var q := Printed(name);
            StripSlashes(q) == q && Base(q) == NonSpaces(name[..8]) && Extension(q) == NonSpaces(name[8..])
  {
    var base, extension := NonSpaces(name[..8]), NonSpaces(name[8..]);
    JoinedFields(base, extension);
    NonSpacesOfPadded(name[8..]);
    assert name[8..][0] == name[8];
    if name[8] == SPACE {
      assert extension == [];
      assert base + [] == base;
    }
  }

  /** The parts of a path's name. */
  lemma {:induction false} NameParts(path: seq<byte>)
    requires ShortName(path).Some?
    ensures var p, name := StripSlashes(path), ShortName(path).value;
            && Fits83(p) && DOT !in Base(p) && name == Fields(Base(p), Extension(p)) && name[0] != SLASH
            && name[..8] == Padded(Upper(Base(p)), 8) && name[8..] == Padded(Upper(Extension(p)), 3)
  {
    hide FirstDot, StripSlashes;
    var p := StripSlashes(path);
    assert ShortName(path).value[0] == ToUpper(p[0]);
  }

  lemma {:induction false} FirstNonSpace(field: seq<byte>)
    requires PaddedRight(field) && field != [] && field[0] != SPACE
    ensures NonSpaces(field) != [] && NonSpaces(field)[0] == field[0]
  {
    NonSpacesOfPadded(field);
    hide NonSpaces;
  }

  lemma CanonicalReads(path: seq<byte>)
    requires ShortName(path).Some? && Canonical(ShortName(path).value)
    ensures ShortName(Printed(ShortName(path).value)) == ShortName(path)
  {
    hide NonSpaces, StripSlashes, Base, Extension, Printed, Upper, Padded, PaddedRight;
    NameParts(path);
    var p := StripSlashes(path);
    var name := ShortName(path).value;
    FieldRecovered(Base(p), 8);
    FieldRecovered(Extension(p), 3);
    FirstNonSpace(name[..8]);
    assert name[..8][0] == name[0];
    PrintedComesApart(name);
  }

  /** A listed name normalises back to its directory name exactly when spaces only pad its two fields. */
  lemma PrintedRoundTrip(path: seq<byte>)
    requires ShortName(path).Some?
    ensures ShortName(Printed(ShortName(path).value)) == ShortName(path) <==> Canonical(ShortName(path).value)
    ensures SPACE !in path ==> ShortName(Printed(ShortName(path).value)) == ShortName(path)
  {
    var name := ShortName(path).value;
    if Canonical(name) {
      CanonicalReads(path);
    } else if ShortName(Printed(name)).Some? {
      SpaceFreeIsCanonical(Printed(name));
    }
    if SPACE !in path {
      SpaceFreeIsCanonical(path);
    }
  }

  /** A C string contains no zero byte, so neither does the name's first character. */
  lemma FirstByteNotZero(path: seq<byte>)
    requires IsPath(path) && ShortName(path).Some?
    ensures ShortName(path).value[0] != 0
  {
    var p := StripSlashes(path);
    assert p[0] in path;
    assert ShortName(path).value[0] == ToUpper(p[0]);
  }

  // ---- names that are lost or come back changed ----

  /** The names that are lost when a file is created are those of paths that begin with the deletion mark. */
  lemma {:induction false} LostNames(path: seq<byte>)
    requires ShortName(path).Some?
    ensures StripSlashes(path) != []
    ensures ShortName(path).value[0] == DELETED <==> StripSlashes(path)[0] == DELETED
  {
    var p := StripSlashes(path);
    assert ShortName(path).value[0] == ToUpper(p[0]);
  }

  /** A short path without dots and slashes is all base. */
  lemma PlainPath(path: seq<byte>)
    requires 1 <= |path| <= 8 && DOT !in path && path[0] != SLASH
    ensures ShortName(path) == Some(Fields(path, []))
  {
    FirstDotOf(path, []);
    assert path + [] == path;
    hide FirstDot;
  }

  lemma LiveNames(dir: Directory, name: Name)
    requires name[0] == DELETED
    ensures name !in Files(dir)
  {
  }

  /** The path of one byte, the mark, has a name; creating it reports success and adds no file. */
  lemma MarkIsLost(dir: Directory)
    requires WellFormed(dir) && HasRoom(dir)
    ensures IsPath([DELETED]) && ShortName([DELETED]).Some? && ShortName([DELETED]).value !in Files(dir)
    ensures FirstFree(dir, 0) >= 0
    ensures Files(dir[FirstFree(dir, 0) := NewEntry(ShortName([DELETED]).value)]) == Files(dir)
  {
    hide HasRoom, WellFormed, Files, FirstFree, Lookup, ShortName, Fields;
    PlainPath([DELETED]);
    FieldsAt([DELETED], [], 0);
    var name := ShortName([DELETED]).value;
    assert name[0] == DELETED;
    RoomIsFirstFree(dir);
    LookupAgrees(dir, name);
    LiveNames(dir, name);
    CreateAdds(dir, name);
  }

  lemma {:induction false} TrailingSpaces(s: seq<byte>, n: nat)
    requires n <= 8 && |s| <= 8 - n
    ensures NonSpaces(s + seq(n, _ => SPACE)) == NonSpaces(s)
  {
    if n == 0 {
      assert s + seq(0, _ => SPACE) == s;
    } else {
      var t := s + seq(n, _ => SPACE);
      assert t[..|t| - 1] == s + seq(n - 1, _ => SPACE);
      TrailingSpaces(s, n - 1);
    }
  }

  lemma PrintedParts(name: Name)
    requires name[8] == SPACE
    ensures Printed(name) == NonSpaces(name[..8])
  {
  }

  /** A path like "A B", with a space between two characters, is listed without the space, which is another name. */
  lemma InnerSpaceIsLost(a: byte, b: byte)
    requires a == ToUpper(a) && b == ToUpper(b) && DOT !in [a, b] && SPACE !in [a, b] && a != SLASH
    ensures ShortName([a, SPACE, b]).Some? && Printed(ShortName([a, SPACE, b]).value) == [a, b]
    ensures ShortName([a, b]).Some? && ShortName([a, b]) != ShortName([a, SPACE, b])
  {
    hide ShortName, NonSpaces, Printed, Fields, ToUpper;
    var path := [a, SPACE, b];
    PlainPath(path);
    PlainPath([a, b]);
    FieldsAt([a, b], [], 1);
    var name := ShortName(path).value;
    FieldsAt(path, [], 0);
    FieldsAt(path, [], 1);
    FieldsAt(path, [], 2);
    assert ToUpper(SPACE) == SPACE by { SpaceIsUpper(); }
    forall k: nat | 3 <= k <= 8
      ensures name[k] == SPACE
    {
      FieldsAt(path, [], k);
    }
    assert name[..8] == path + seq(5, _ => SPACE);
    TrailingSpaces(path, 5);
    PrintedParts(name);
    assert NonSpaces(path) == [a, b] by { TwoOfThree(a, b); }
  }

  lemma SpaceIsUpper()
    ensures ToUpper(SPACE) == SPACE
  {
  }

  lemma TwoOfThree(a: byte, b: byte)
    requires a != SPACE && b != SPACE
    ensures NonSpaces([a, SPACE, b]) == [a, b]
  {
    var s := [a, SPACE, b];
    assert s[..2] == [a, SPACE] && s[..2][..1] == [a] && [a][..0] == [];
    assert NonSpaces([a]) == [a] && NonSpaces([a, SPACE]) == [a];
  }
}
