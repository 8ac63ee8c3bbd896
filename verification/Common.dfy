/** Types, constants and small functions that several components share. */
module Common {
  const PAGE_SIZE := 4096

  /** Where the kernel heap begins. */
  const HEAP_START := 0xC040_0000

  datatype Option<+T> = None | Some(value: T)

  function Min(a: nat, b: nat): nat {
    if a < b then a else b
  }

  function Max(a: nat, b: nat): nat {
    if a < b then b else a
  }

  /** Unsigned 32-bit wrap-around. */
  function Wrap32(x: int): nat {
    x % 0x1_0000_0000
  }

  function Pow2(k: nat): (p: nat)
    ensures p > 0
  {
    if k == 0 then 1 else 2 * Pow2(k - 1)
  }

  /** A 32-bit value is the sum of its four bytes, each at its place. */
  lemma FourBytes(value: nat)
    requires value < 0x1_0000_0000
    ensures value == value % 0x100 + 0x100 * (value / 0x100 % 0x100) + 0x1_0000 * (value / 0x1_0000 % 0x100)
                     + 0x100_0000 * (value / 0x100_0000)
    ensures value / 0x100_0000 < 0x100
  {
    LowByte(value);
    LowByte(value / 0x100);
    LowByte(value / 0x1_0000);
  }

  lemma LowByte(value: nat)
    ensures value == value % 0x100 + 0x100 * (value / 0x100)
    ensures value / 0x100 / 0x100 == value / 0x1_0000 && value / 0x1_0000 / 0x100 == value / 0x100_0000
  {
  }

  ghost predicate Differ(chain: seq<nat>, i: nat, j: nat)
    requires i < |chain| && j < |chain|
  {
    chain[i] != chain[j]
  }

  ghost predicate Distinct(chain: seq<nat>) {
    forall i: nat, j: nat :: i < j < |chain| ==> Differ(chain, i, j)
  }

  lemma DifferAt(chain: seq<nat>, i: nat, j: nat)
    requires Distinct(chain) && i < |chain| && j < |chain| && i != j
    ensures chain[i] != chain[j]
  {
    assert if i < j then Differ(chain, i, j) else Differ(chain, j, i);
  }

  lemma SameIndex(chain: seq<nat>, i: nat, j: nat)
    requires Distinct(chain) && i < |chain| && j < |chain| && chain[i] == chain[j]
    ensures i == j
  {
    if i != j {
      DifferAt(chain, i, j);
    }
  }
}
