/** The first stack of a user program: strings, pointer vectors and argument count packed into one page. */
module UserStack {
  import opened Common
  import opened Bytes

  const MAX_STRINGS := 16

  type Word = w: int | 0 <= w < 0x1_0000_0000

  /** The bytes of a string, without the NUL that ends it. */
  ghost predicate CString(s: seq<byte>) {
    0 !in s
  }

  /** `argv` and `envp` are read up to their null pointer, but no further than sixteen entries. */
  function Capped(v: seq<seq<byte>>): (r: seq<seq<byte>>)
    ensures |r| <= MAX_STRINGS
  {
    if |v| <= MAX_STRINGS then v else v[..MAX_STRINGS]
  }

  /** The room the strings need, each with its NUL. */
  function Total(v: seq<seq<byte>>): nat {
    if v == [] then 0 else |v[0]| + 1 + Total(v[1..])
  }

  function AlignDown(x: nat): (r: nat)
    ensures r <= x < r + 4 && r % 4 == 0
  {
    x - x % 4
  }

  /** The room for the vectors, the two null pointers, the count and perhaps a return address. */
  function VectorSize(argc: nat, envc: nat, returnAddress: nat): nat {
    (envc + 1 + argc + 1) * 4 + 4 + (if returnAddress != 0 then 4 else 0)
  }

  /** Everything fits the page. */
  ghost predicate Fits(argv: seq<seq<byte>>, envp: seq<seq<byte>>, returnAddress: nat) {
    && Total(envp) <= PAGE_SIZE
    && Total(argv) <= AlignDown(PAGE_SIZE - Total(envp))
    && VectorSize(|argv|, |envp|, returnAddress) <= AlignDown(AlignDown(PAGE_SIZE - Total(envp)) - Total(argv))
  }

  /** The next multiple of four. */
  ghost function RoundUp4(x: nat): nat {
    (x + 3) / 4 * 4
  }

  /**
   The page holds both sets of strings, each with its NULs and up to three bytes of padding, two null-ended vectors of
   pointers, the count and perhaps a return address: exactly that much has to fit.
   */
  lemma {:induction false} FitsIff(argv: seq<seq<byte>>, envp: seq<seq<byte>>, returnAddress: nat)
    ensures Fits(argv, envp, returnAddress) <==>
              RoundUp4(Total(envp)) + RoundUp4(Total(argv)) + 4 * (|argv| + 1) + 4 * (|envp| + 1) + 4
              + (if returnAddress == 0 then 0 else 4) <= 4096
  {
    hide Total;
    var e, a := Total(envp), Total(argv);
    if e <= 4096 {
      DownUp(4096, e);
      if a <= 4096 - RoundUp4(e) {
        DownUp(4096 - RoundUp4(e), a);
      }
    }
  }

  /** Going down from a multiple of four is going up on the other side. */
  lemma DownUp(top: nat, x: nat)
    requires top % 4 == 0 && x <= top
    ensures x <= RoundUp4(x) <= top && RoundUp4(x) % 4 == 0 && AlignDown(top - x) == top - RoundUp4(x)
  {
  }

  /** The strings taken of a longer vector are its first sixteen. */
  lemma CappedIs(v: seq<seq<byte>>)
    ensures Capped(v) <= v && |Capped(v)| == Min(|v|, 16)
  {
  }

  // ---------------------------------------------------------------- reading the page back

  /** The string that starts at an offset, up to its NUL, or none if it runs off the page. */
  function StringAt(b: seq<byte>, o: nat): (r: seq<byte>)
    requires o <= |b|
    decreases |b| - o
  {
    if o == |b| || b[o] == 0 then [] else [b[o]] + StringAt(b, o + 1)
  }

  /** A pointer into the page at `base` that shows this string, with its NUL in the page. */
  ghost predicate PointsTo(b: seq<byte>, base: nat, p: nat, s: seq<byte>) {
    base <= p && p - base + |s| < |b| && StringAt(b, p - base) == s && b[p - base + |s|] == 0
  }

  /** The words from offset `o` on are pointers to the strings, in order, and then a null pointer. */
  ghost predicate VectorAt(b: seq<byte>, base: nat, o: nat, v: seq<seq<byte>>) {
    && o + 4 * |v| + 4 <= |b|
    && (forall k :: 0 <= k < |v| ==> PointsTo(b, base, ReadLe32(b, o + 4 * k), v[k]))
    && ReadLe32(b, o + 4 * |v|) == 0
  }

  /**
   What the program finds at its stack pointer: the return address if there is one, the count, and the two vectors.
   */
  ghost predicate Decodes(b: seq<byte>, base: nat, esp: nat, argv: seq<seq<byte>>, envp: seq<seq<byte>>,
                          returnAddress: nat)
    requires |b| == PAGE_SIZE
  {
    && base <= esp && esp % 4 == base % 4
    && var o := esp - base; var c := if returnAddress != 0 then o + 4 else o;
       && c + 4 <= |b|
       && (returnAddress != 0 ==> ReadLe32(b, o) == returnAddress)
       && ReadLe32(b, c) == |argv|
       && VectorAt(b, base, c + 4, argv)
       && VectorAt(b, base, c + 4 + 4 * |argv| + 4, envp)
  }

  /** The offsets that the `n` pointers from offset `o` on point to. */
  ghost function TargetsAt(b: seq<byte>, base: nat, o: nat, n: nat): (r: seq<int>)
    requires o + 4 * n <= |b|
    ensures |r| == n && forall k :: 0 <= k < n ==> r[k] == ReadLe32(b, o + 4 * k) - base
  {
    seq(n, k requires 0 <= k < n => ReadLe32(b, o + 4 * k) - base)
  }

  /** Strings at these offsets lie in [lo, hi), each behind the NUL of the one before. */
  ghost predicate Apart(v: seq<seq<byte>>, starts: seq<int>, lo: int, hi: int) {
    && |starts| == |v|
    && (forall k :: 0 <= k < |v| ==> lo <= starts[k] && starts[k] + |v[k]| < hi)
    && forall j, k :: 0 <= j < k < |v| ==> starts[j] + |v[j]| < starts[k]
  }

  /** The strings that the two vectors point to overlap neither each other nor the words at the stack pointer. */
  ghost predicate NothingOverlaps(b: seq<byte>, base: nat, esp: nat, argv: seq<seq<byte>>, envp: seq<seq<byte>>,
                                  returnAddress: nat)
    requires |b| == PAGE_SIZE && base <= esp && esp - base + VectorSize(|argv|, |envp|, returnAddress) <= |b|
  {
    var o := esp - base;
    var args := o + (if returnAddress != 0 then 8 else 4);
    Apart(argv + envp, TargetsAt(b, base, args, |argv|) + TargetsAt(b, base, args + 4 * |argv| + 4, |envp|),
          o + VectorSize(|argv|, |envp|, returnAddress), PAGE_SIZE)
  }

  // ---------------------------------------------------------------- strings in memory

  /** The string and its NUL lie at the offset. */
  ghost predicate HoldsString(b: seq<byte>, o: nat, s: seq<byte>) {
    o + |s| < |b| && b[o..o + |s|] == s && b[o + |s|] == 0
  }

  lemma {:induction false} HeldStringReads(b: seq<byte>, o: nat, s: seq<byte>)
    requires HoldsString(b, o, s) && CString(s)
    ensures StringAt(b, o) == s
    decreases |s|
  {
    if s != [] {
      assert b[o] == b[o..o + |s|][0] == s[0];
      assert b[o + 1..o + |s|] == s[1..];
      HeldStringReads(b, o + 1, s[1..]);
    }
  }

  /** Nothing changed from the offset on. */
  ghost predicate SameFrom(b: seq<byte>, c: seq<byte>, o: nat) {
    |b| == |c| && forall x :: o <= x < |b| ==> c[x] == b[x]
  }

  lemma HeldStringStays(b: seq<byte>, c: seq<byte>, lo: nat, o: nat, s: seq<byte>)
    requires SameFrom(b, c, lo) && lo <= o && HoldsString(b, o, s)
    ensures HoldsString(c, o, s)
  {
    assert c[o..o + |s|] == b[o..o + |s|];
  }

  /** The offsets hold the strings, all of them from `lo` on. */
  ghost predicate HoldsAll(b: seq<byte>, v: seq<seq<byte>>, offsets: seq<nat>, lo: nat) {
    |offsets| == |v| && forall k :: 0 <= k < |v| ==> lo <= offsets[k] && HoldsString(b, offsets[k], v[k])
  }

  lemma AllStay(b: seq<byte>, c: seq<byte>, v: seq<seq<byte>>, offsets: seq<nat>, lo: nat)
    requires HoldsAll(b, v, offsets, lo) && SameFrom(b, c, lo)
    ensures HoldsAll(c, v, offsets, lo)
  {
    forall k | 0 <= k < |v|
      ensures HoldsString(c, offsets[k], v[k])
    {
      HeldStringStays(b, c, lo, offsets[k], v[k]);
    }
  }

  lemma {:induction false} TotalSuffix(v: seq<seq<byte>>, i: nat)
    requires i <= |v|
    ensures Total(v[i..]) <= Total(v)
    ensures i < |v| ==> Total(v[i..]) == |v[i]| + 1 + Total(v[i + 1..])
  {
    if i < |v| {
      assert v[i..][1..] == v[i + 1..];
    }
    if i > 0 {
      assert v[i..] == v[1..][i - 1..];
      TotalSuffix(v[1..], i - 1);
    }
  }

  /** Copies a string and its NUL to an offset. */
  method CopyString(page: array<byte>, offset: nat, s: seq<byte>)
    requires offset + |s| < page.Length
    modifies page
    ensures HoldsString(page[..], offset, s)
    ensures forall x :: 0 <= x < page.Length && !(offset <= x <= offset + |s|) ==> page[x] == old(page[x])
  {
    for i := 0 to |s|
      invariant forall x :: 0 <= x < i ==> page[offset + x] == s[x]
      invariant forall x :: 0 <= x < page.Length && !(offset <= x < offset + i) ==> page[x] == old(page[x])
    {
      page[offset + i] := s[i];
    }
    page[offset + |s|] := 0;
    assert page[..][offset..offset + |s|] == s;
  }

  lemma ApartNone(lo: int, hi: int)
    ensures Apart([], [], lo, hi)
  {
  }

  /** One more string, right below. */
  lemma ApartBelow(v: seq<seq<byte>>, starts: seq<int>, lo: int, hi: int, s: seq<byte>, start: int)
    requires Apart(v, starts, lo, hi) && start + |s| + 1 == lo <= hi
    ensures Apart([s] + v, [start] + starts, start, hi)
  {
  }

  /** One group of strings below another. */
  lemma ApartGroups(v: seq<seq<byte>>, starts: seq<int>, w: seq<seq<byte>>, starts': seq<int>, lo: int, mid: int,
                    mid': int, hi: int)
    requires Apart(v, starts, lo, mid) && mid <= mid' <= hi && Apart(w, starts', mid', hi)
    ensures forall low :: low <= lo <= mid ==> Apart(v + w, starts + starts', low, hi)
  {
  }

  /** Packs strings downwards from an offset, the last one highest, as long as there is room. */
  method PushStrings(page: array<byte>, start: nat, v: seq<seq<byte>>)
    returns (ok: bool, offset: nat, offsets: seq<nat>)
    requires start <= page.Length
    modifies page
    ensures ok <==> Total(v) <= start
    ensures ok ==> offset == start - Total(v) && HoldsAll(page[..], v, offsets, offset)
                   && SameFrom(old(page[..]), page[..], start)
    ensures ok ==> Apart(v, offsets, offset, start)
  {
    hide HoldsString, Apart;
    ApartNone(start, start);
    offset, offsets := start, [];
    var i := |v|;
    while i > 0
      invariant 0 <= i <= |v| && offset == start - Total(v[i..])
      invariant HoldsAll(page[..], v[i..], offsets, offset) && SameFrom(old(page[..]), page[..], start)
      invariant Apart(v[i..], offsets, offset, start)
    {
      TotalSuffix(v, i - 1);
      var len := |v[i - 1]| + 1;
      if len > offset {
        return false, offset, offsets;
      }
      ghost var before := page[..];
      offset := offset - len;
      CopyString(page, offset, v[i - 1]);
      AllStay(before, page[..], v[i..], offsets, offset + len);
      ApartBelow(v[i..], offsets, offset + len, start, v[i - 1], offset);
      offsets := [offset] + offsets;
      i := i - 1;
      assert v[i..] == [v[i]] + v[i + 1..];
    }
    assert v[0..] == v;
    ok := true;
  }

  // ---------------------------------------------------------------- words in memory

  /** Stores a word, lowest byte first. */
  method PutWord(page: array<byte>, o: nat, w: Word)
    requires o + 4 <= page.Length
    modifies page
    ensures ReadLe32(page[..], o) == w
    ensures forall x :: 0 <= x < page.Length && !(o <= x < o + 4) ==> page[x] == old(page[x])
  {
    page[o] := w % 0x100;
    page[o + 1] := w / 0x100 % 0x100;
    page[o + 2] := w / 0x1_0000 % 0x100;
    page[o + 3] := w / 0x100_0000;
    FourBytes(w);
  }

  /** The words from the offset on are these. */
  ghost predicate HoldsWords(b: seq<byte>, o: nat, ws: seq<nat>) {
    o + 4 * |ws| <= |b| && forall k :: 0 <= k < |ws| ==> ReadLe32(b, o + 4 * k) == ws[k]
  }

  lemma WordsStay(b: seq<byte>, c: seq<byte>, lo: nat, o: nat, ws: seq<nat>)
    requires HoldsWords(b, o, ws) && lo <= o && SameFrom(b, c, lo)
    ensures HoldsWords(c, o, ws)
  {
    forall k | 0 <= k < |ws|
      ensures ReadLe32(c, o + 4 * k) == ws[k]
    {
      assert ReadLe32(b, o + 4 * k) == ws[k];
    }
  }

  lemma WordsPush(b: seq<byte>, o: nat, w: nat, ws: seq<nat>)
    requires o >= 4 && HoldsWords(b, o, ws) && ReadLe32(b, o - 4) == w
    ensures HoldsWords(b, o - 4, [w] + ws)
  {
    forall k | 0 <= k < |ws| + 1
      ensures ReadLe32(b, o - 4 + 4 * k) == ([w] + ws)[k]
    {
      assert k > 0 ==> ReadLe32(b, o + 4 * (k - 1)) == ws[k - 1];
    }
  }

  /** Pushes one word. */
  method PushWord(page: array<byte>, o: nat, w: Word, ghost ws: seq<nat>) returns (offset: nat)
    requires 4 <= o <= page.Length && HoldsWords(page[..], o, ws)
    modifies page
    ensures offset == o - 4 && HoldsWords(page[..], offset, [w] + ws) && SameFrom(old(page[..]), page[..], o)
  {
    hide HoldsWords, ReadLe32;
    ghost var before := page[..];
    offset := o - 4;
    PutWord(page, offset, w);
    WordsStay(before, page[..], o, o, ws);
    WordsPush(page[..], o, w, ws);
  }

  /** Pushes a null pointer and then pointers, the last one first. */
  method PushVector(page: array<byte>, start: nat, base: nat, offsets: seq<nat>, ghost ws: seq<nat>)
    returns (offset: nat)
    requires 4 * |offsets| + 4 <= start <= page.Length == PAGE_SIZE && base + PAGE_SIZE <= 0x1_0000_0000
    requires HoldsWords(page[..], start, ws) && forall k :: 0 <= k < |offsets| ==> offsets[k] < PAGE_SIZE
    modifies page
    ensures offset == start - 4 - 4 * |offsets| && SameFrom(old(page[..]), page[..], start)
    ensures HoldsWords(page[..], offset, Pointers(base, offsets) + [0] + ws)
  {
    hide HoldsWords;
    offset := PushWord(page, start, 0, ws);
    var i := |offsets|;
    assert Pointers(base, offsets[i..]) + ([0] + ws) == [0] + ws;
    while i > 0
      invariant 0 <= i <= |offsets| && offset == start - 4 - 4 * (|offsets| - i)
      invariant SameFrom(old(page[..]), page[..], start)
                && HoldsWords(page[..], offset, Pointers(base, offsets[i..]) + ([0] + ws))
    {
      offset := PushWord(page, offset, base + offsets[i - 1], Pointers(base, offsets[i..]) + ([0] + ws));
      i := i - 1;
      assert Pointers(base, offsets[i..]) == [base + offsets[i]] + Pointers(base, offsets[i + 1..]);
      assert Pointers(base, offsets[i..]) + ([0] + ws)
             == [base + offsets[i]] + (Pointers(base, offsets[i + 1..]) + ([0] + ws));
    }
    assert offsets[0..] == offsets;
    assert Pointers(base, offsets) + ([0] + ws) == Pointers(base, offsets) + [0] + ws;
  }

  ghost function Pointers(base: nat, offsets: seq<nat>): (r: seq<nat>)
    ensures |r| == |offsets| && forall k :: 0 <= k < |r| ==> r[k] == base + offsets[k]
  {
    seq(|offsets|, k requires 0 <= k < |offsets| => base + offsets[k])
  }

  // ---------------------------------------------------------------- the whole page

  /** The words of the vectors, as they lie from the stack pointer on. */
  ghost function Frame(base: nat, argv: seq<nat>, envp: seq<nat>, returnAddress: nat): seq<nat> {
    (if returnAddress != 0 then [returnAddress]
      else []) + ([|argv|] + (Pointers(base, argv) + [0] + (Pointers(base, envp) + [0] + [])))
  }

  /** A vector among the words, with its strings further up, reads back as the strings. */
  lemma VectorReads(b: seq<byte>, base: nat, o: nat, ws: seq<nat>, at: nat, v: seq<seq<byte>>, offsets: seq<nat>,
                    lo: nat)
    requires HoldsWords(b, o, ws) && HoldsAll(b, v, offsets, lo) && (forall k :: 0 <= k < |v| ==> CString(v[k]))
    requires at + |v| < |ws| && ws[at..at + |v|] == Pointers(base, offsets) && ws[at + |v|] == 0
    ensures VectorAt(b, base, o + 4 * at, v)
  {
    assert o + 4 * at + 4 * |v| == o + 4 * (at + |v|);
    forall k | 0 <= k < |v|
      ensures PointsTo(b, base, ReadLe32(b, o + 4 * at + 4 * k), v[k])
    {
      assert o + 4 * at + 4 * k == o + 4 * (at + k);
      assert ws[at..at + |v|][k] == ws[at + k];
      HeldStringReads(b, offsets[k], v[k]);
    }
  }

  /** Where the parts of the frame are among its words. */
  lemma FrameParts(base: nat, argv: seq<nat>, envp: seq<nat>, returnAddress: nat)
    ensures var ws := Frame(base, argv, envp, returnAddress); var c := if returnAddress != 0 then 1 else 0;
            && |ws| == c + |argv| + |envp| + 3 && ws[c] == |argv| && (c == 1 ==> ws[0] == returnAddress)
            && ws[c + 1..c + 1 + |argv|] == Pointers(base, argv) && ws[c + 1 + |argv|] == 0
            && ws[c + |argv| + 2..c + |argv| + 2 + |envp|] == Pointers(base, envp) && ws[c + |argv| + 2 + |envp|] == 0
  {
  }

  lemma WordHeld(b: seq<byte>, o: nat, ws: seq<nat>, k: nat)
    requires HoldsWords(b, o, ws) && k < |ws|
    ensures o + 4 * k + 4 <= |b| && ReadLe32(b, o + 4 * k) == ws[k]
  {
  }

  lemma FrameReads(b: seq<byte>, base: nat, o: nat, argv: seq<seq<byte>>, envp: seq<seq<byte>>, returnAddress: nat,
                   argOffsets: seq<nat>, envOffsets: seq<nat>, argLo: nat, envLo: nat)
    requires |b| == PAGE_SIZE && HoldsWords(b, o, Frame(base, argOffsets, envOffsets, returnAddress)) && o % 4 == 0
    requires HoldsAll(b, argv, argOffsets, argLo) && HoldsAll(b, envp, envOffsets, envLo)
    requires forall k :: 0 <= k < |argv| ==> CString(argv[k])
    requires forall k :: 0 <= k < |envp| ==> CString(envp[k])
    ensures Decodes(b, base, base + o, argv, envp, returnAddress)
  {
    hide HoldsAll, VectorAt, Frame, Pointers, HoldsWords, ReadLe32;
    var ws := Frame(base, argOffsets, envOffsets, returnAddress);
    var c := if returnAddress != 0 then 1 else 0;
    HoldCounts(b, argv, argOffsets, argLo);
    HoldCounts(b, envp, envOffsets, envLo);
    FrameParts(base, argOffsets, envOffsets, returnAddress);
    VectorReads(b, base, o, ws, c + 1, argv, argOffsets, argLo);
    VectorReads(b, base, o, ws, c + |argv| + 2, envp, envOffsets, envLo);
    WordHeld(b, o, ws, 0);
    WordHeld(b, o, ws, c);
  }

  /** The pointers among the words point to where the strings were packed. */
  lemma TargetsRead(b: seq<byte>, base: nat, o: nat, ws: seq<nat>, at: nat, offsets: seq<nat>)
    requires HoldsWords(b, o, ws) && at + |offsets| <= |ws| && ws[at..at + |offsets|] == Pointers(base, offsets)
    ensures o + 4 * at + 4 * |offsets| <= |b| && TargetsAt(b, base, o + 4 * at, |offsets|) == offsets
  {
    forall k | 0 <= k < |offsets|
      ensures ReadLe32(b, o + 4 * at + 4 * k) == base + offsets[k]
    {
      assert o + 4 * at + 4 * k == o + 4 * (at + k);
      assert ws[at..at + |offsets|][k] == ws[at + k];
    }
  }

  lemma FrameTargets(b: seq<byte>, base: nat, o: nat, argv: seq<seq<byte>>, envp: seq<seq<byte>>, returnAddress: nat,
                     argOffsets: seq<nat>, envOffsets: seq<nat>, lo: nat)
    requires |b| == PAGE_SIZE && HoldsWords(b, o, Frame(base, argOffsets, envOffsets, returnAddress))
    requires |argOffsets| == |argv| && |envOffsets| == |envp|
             && o + VectorSize(|argv|, |envp|, returnAddress) == lo <= PAGE_SIZE
    requires Apart(argv + envp, argOffsets + envOffsets, lo, PAGE_SIZE)
    ensures NothingOverlaps(b, base, base + o, argv, envp, returnAddress)
  {
    hide Frame, Pointers, HoldsWords, ReadLe32, Apart;
    var ws := Frame(base, argOffsets, envOffsets, returnAddress);
    var c := if returnAddress != 0 then 1 else 0;
    FrameParts(base, argOffsets, envOffsets, returnAddress);
    TargetsRead(b, base, o, ws, c + 1, argOffsets);
    TargetsRead(b, base, o, ws, c + |argv| + 2, envOffsets);
  }

  lemma HoldCounts(b: seq<byte>, v: seq<seq<byte>>, offsets: seq<nat>, lo: nat)
    requires HoldsAll(b, v, offsets, lo)
    ensures |offsets| == |v| && forall k :: 0 <= k < |offsets| ==> lo <= offsets[k] < |b|
  {
  }

  /** The strings of both vectors, each group aligned down, and whether the vectors will fit below them. */
  method PackStrings(page: array<byte>, args: seq<seq<byte>>, env: seq<seq<byte>>, returnAddress: Word)
    returns (ok: bool, offset: nat, argOffsets: seq<nat>, envOffsets: seq<nat>)
    requires page.Length == PAGE_SIZE
    modifies page
    ensures ok <==> Fits(args, env, returnAddress)
    ensures ok ==> VectorSize(|args|, |env|, returnAddress) <= offset <= PAGE_SIZE && offset % 4 == 0
    ensures ok ==> HoldsAll(page[..], args, argOffsets, offset) && HoldsAll(page[..], env, envOffsets, offset)
    ensures ok ==> Apart(args + env, argOffsets + envOffsets, offset, PAGE_SIZE)
  {
    hide HoldsString, Apart;
    argOffsets := [];
    ok, offset, envOffsets := PushStrings(page, PAGE_SIZE, env);
    if !ok {
      return;
    }
    ghost var envLo, b0 := offset, page[..];
    offset := AlignDown(offset);
    ghost var argHi := offset;
    ok, offset, argOffsets := PushStrings(page, offset, args);
    if !ok {
      return;
    }
    AllStay(b0, page[..], env, envOffsets, envLo);
    ApartGroups(args, argOffsets, env, envOffsets, offset, argHi, envLo, PAGE_SIZE);
    offset := AlignDown(offset);
    ok := VectorSize(|args|, |env|, returnAddress) <= offset;
  }

  /** The vectors, the count and the return address below the strings. */
  method PushFrame(page: array<byte>, start: nat, base: nat, argOffsets: seq<nat>, envOffsets: seq<nat>,
                   returnAddress: Word) returns (offset: nat)
    requires page.Length == PAGE_SIZE && base + PAGE_SIZE <= 0x1_0000_0000 && |argOffsets| <= MAX_STRINGS
    requires VectorSize(|argOffsets|, |envOffsets|, returnAddress) <= start <= PAGE_SIZE && start % 4 == 0
    requires forall k :: 0 <= k < |argOffsets| ==> argOffsets[k] < PAGE_SIZE
    requires forall k :: 0 <= k < |envOffsets| ==> envOffsets[k] < PAGE_SIZE
    modifies page
    ensures offset == start - VectorSize(|argOffsets|, |envOffsets|, returnAddress) && offset % 4 == 0
            && SameFrom(old(page[..]), page[..], start)
    ensures HoldsWords(page[..], offset, Frame(base, argOffsets, envOffsets, returnAddress))
  {
    hide HoldsWords, Pointers, ReadLe32;
    NoWords(page[..], start);
    offset := PushVector(page, start, base, envOffsets, []);
    ghost var envWords := Pointers(base, envOffsets) + [0] + [];
    offset := PushVector(page, offset, base, argOffsets, envWords);
    offset := PushWord(page, offset, |argOffsets|, Pointers(base, argOffsets) + [0] + envWords);
    ghost var ws := [|argOffsets|] + (Pointers(base, argOffsets) + [0] + envWords);
    assert [] + ws == ws;
    if returnAddress != 0 {
      offset := PushWord(page, offset, returnAddress, ws);
    }
  }

  lemma NoWords(b: seq<byte>, o: nat)
    requires o <= |b|
    ensures HoldsWords(b, o, [])
  {
  }

  /**
   * `task_setup_user_stack` on the frame of the stack page: it succeeds exactly when everything fits, and
   * then the page decodes from the stack pointer to exactly what was passed.
   */
  method SetupUserStack(page: array<byte>, stackTop: nat, argv: seq<seq<byte>>, envp: seq<seq<byte>>,
                        returnAddress: Word)
    returns (ok: bool, esp: nat)
    requires page.Length == PAGE_SIZE <= stackTop <= 0x1_0000_0000
    requires forall k :: 0 <= k < |argv| ==> CString(argv[k])
    requires forall k :: 0 <= k < |envp| ==> CString(envp[k])
    modifies page
    ensures ok <==> Fits(Capped(argv), Capped(envp), returnAddress)
    ensures ok ==> Decodes(page[..], stackTop - PAGE_SIZE, esp, Capped(argv), Capped(envp), returnAddress)
    ensures ok ==> stackTop - PAGE_SIZE <= esp
                   && esp + VectorSize(|Capped(argv)|, |Capped(envp)|, returnAddress) <= stackTop
    ensures ok ==> NothingOverlaps(page[..], stackTop - PAGE_SIZE, esp, Capped(argv), Capped(envp), returnAddress)
  {
    hide HoldsWords, HoldsString, Decodes, Frame, HoldsAll, Apart, NothingOverlaps;
    for x := 0 to PAGE_SIZE {
      page[x] := 0;
    }
    var stackPage := stackTop - PAGE_SIZE;
    var args, env := Capped(argv), Capped(envp);
    var offset, argOffsets, envOffsets;
    esp := 0;
    ok, offset, argOffsets, envOffsets := PackStrings(page, args, env, returnAddress);
    if !ok {
      return;
    }
    ghost var packed, lo := page[..], offset;
    HoldCounts(packed, env, envOffsets, lo);
    HoldCounts(packed, args, argOffsets, lo);
    offset := PushFrame(page, offset, stackPage, argOffsets, envOffsets, returnAddress);
    AllStay(packed, page[..], env, envOffsets, lo);
    AllStay(packed, page[..], args, argOffsets, lo);
    FrameReads(page[..], stackPage, offset, args, env, returnAddress, argOffsets, envOffsets, lo, lo);
    FrameTargets(page[..], stackPage, offset, args, env, returnAddress, argOffsets, envOffsets, lo);
    esp := stackPage + offset;
  }
}
