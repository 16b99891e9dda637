/** The flash controller underneath the store: pages that erase to 0xFF, 8-byte ECC words that
    program by clearing bits, and the firmware's 64-byte programming loop on top of them. */
module Flash {
  import opened Bytes

  // Pages are 1024 bytes and ECC words 8 bytes; both appear below as literals.
  const FLASH_SIZE: nat := 0x4_0000

  /** One controller command. A power cut can fall between any two of them. */
  datatype Op = Erase(page: nat) | Program(addr: nat, word: bytes)

  predicate InRange(op: Op) {
    match op
    case Erase(a) => a % 1024 == 0 && a + 1024 <= FLASH_SIZE
    case Program(a, w) => a % 8 == 0 && a + 8 <= FLASH_SIZE && |w| == 8
  }

  ghost predicate AllInRange(ops: seq<Op>) {
    forall i :: 0 <= i < |ops| ==> InRange(ops[i])
  }

  /** Flash contents, with the words that were erased and not programmed since. */
  datatype Chip = Chip(mem: bytes, clean: iset<nat>)

  ghost predicate IsChip(c: Chip) {
    |c.mem| == FLASH_SIZE
  }

  ghost function Step(c: Chip, op: Op): (r: Chip)
    requires IsChip(c) && InRange(op)
    ensures IsChip(r)
  {
    match op
    case Erase(a) =>
      Chip(seq(|c.mem|, i requires 0 <= i < |c.mem| => if a <= i < a + 1024 then 255 else c.mem[i]),
           c.clean + (iset w: nat | a <= w < a + 1024 && w % 8 == 0))
    case Program(a, d) =>
      Chip(seq(|c.mem|, i requires 0 <= i < |c.mem| => if a <= i < a + 8 then And8(c.mem[i], d[i - a]) else c.mem[i]),
           c.clean - iset{a})
  }

  ghost function Run(c: Chip, ops: seq<Op>): (r: Chip)
    requires IsChip(c) && AllInRange(ops)
    ensures IsChip(r)
  {
    if ops == [] then c else Step(Run(c, ops[..|ops| - 1]), ops[|ops| - 1])
  }

  lemma RunOneMore(c: Chip, ops: seq<Op>, op: Op)
    requires IsChip(c) && AllInRange(ops) && InRange(op)
    ensures AllInRange(ops + [op]) && Run(c, ops + [op]) == Step(Run(c, ops), op)
  {
    assert (ops + [op])[..|ops + [op]| - 1] == ops;
  }

  /** The ECC rule: a word is programmed only between an erase of its page and the next erase, once. */
  ghost predicate Legal(c: Chip, op: Op) {
    op.Program? ==> op.addr in c.clean
  }

  ghost predicate WriteOnce(c: Chip, ops: seq<Op>)
    requires IsChip(c) && AllInRange(ops)
  {
    forall k :: 0 <= k < |ops| ==> Legal(Run(c, ops[..k]), ops[k])
  }

  predicate ErasesWord(op: Op, a: nat) {
    op.Erase? && op.page <= a < op.page + 1024
  }

  lemma {:induction false} StaysProgrammed(c: Chip, ops: seq<Op>, i: nat, j: nat, a: nat)
    requires IsChip(c) && AllInRange(ops) && i < j <= |ops| && ops[i].Program? && ops[i].addr == a
    requires forall k :: i < k < j ==> !ErasesWord(ops[k], a)
    ensures a !in Run(c, ops[..j]).clean
    decreases j
  {
    assert ops[..j][..j - 1] == ops[..j - 1];
    if i < j - 1 {
      StaysProgrammed(c, ops, i, j - 1, a);
    }
  }

  /** What the rule comes to over a run: between two programs of one word its page was erased. */
  lemma ErasedBetween(c: Chip, ops: seq<Op>, i: nat, j: nat)
    requires IsChip(c) && AllInRange(ops) && WriteOnce(c, ops) && i < j < |ops|
    requires ops[i].Program? && ops[j].Program? && ops[i].addr == ops[j].addr
    ensures exists k :: i < k < j && ErasesWord(ops[k], ops[i].addr)
  {
    assert Legal(Run(c, ops[..j]), ops[j]);
    if forall k :: i < k < j ==> !ErasesWord(ops[k], ops[i].addr) {
      StaysProgrammed(c, ops, i, j, ops[i].addr);
    }
  }

  // ---- running sequences of commands ----

  lemma {:induction false} RunConcat(c: Chip, a: seq<Op>, b: seq<Op>)
    requires IsChip(c) && AllInRange(a) && AllInRange(b)
    ensures AllInRange(a + b)
    ensures Run(c, a + b) == Run(Run(c, a), b)
    decreases |b|
  {
    if b == [] {
      assert a + b == a;
    } else {
      var front := b[..|b| - 1];
      RunConcat(c, a, front);
      assert (a + b)[..|a + b| - 1] == a + front;
    }
  }

  lemma WriteOnceConcat(c: Chip, a: seq<Op>, b: seq<Op>)
    requires IsChip(c) && AllInRange(a) && AllInRange(b)
    requires WriteOnce(c, a) && WriteOnce(Run(c, a), b)
    ensures AllInRange(a + b) && WriteOnce(c, a + b)
  {
    RunConcat(c, a, b);
    forall k | 0 <= k < |a + b|
      ensures Legal(Run(c, (a + b)[..k]), (a + b)[k])
    {
      if k < |a| {
        assert (a + b)[..k] == a[..k];
      } else {
        assert (a + b)[..k] == a + b[..k - |a|];
        RunConcat(c, a, b[..k - |a|]);
      }
    }
  }

  predicate Avoids(op: Op, lo: nat, hi: nat) {
    match op
    case Erase(a) => a + 1024 <= lo || hi <= a
    case Program(a, _) => a + 8 <= lo || hi <= a
  }

  ghost predicate AllAvoid(ops: seq<Op>, lo: nat, hi: nat) {
    forall i :: 0 <= i < |ops| ==> Avoids(ops[i], lo, hi)
  }

  /** Two chips hold the same bytes, and the same clean words, from lo up to hi. */
  ghost predicate SameOn(c: Chip, d: Chip, lo: nat, hi: nat)
    requires IsChip(c) && IsChip(d) && hi <= FLASH_SIZE
  {
    && (forall i :: lo <= i < hi ==> c.mem[i] == d.mem[i])
    && (forall w: nat :: lo <= w < hi && w % 8 == 0 ==> (w in c.clean <==> w in d.clean))
  }

  /** Commands that avoid a word-aligned region leave it as it was. */
  lemma {:induction false} Frame(c: Chip, ops: seq<Op>, lo: nat, hi: nat)
    requires IsChip(c) && AllInRange(ops) && hi <= FLASH_SIZE && AllAvoid(ops, lo, hi)
    ensures SameOn(c, Run(c, ops), lo, hi)
    decreases |ops|
  {
    if ops != [] {
      Frame(c, ops[..|ops| - 1], lo, hi);
    }
  }

  // ---- programming a buffer ----

  function WordCount(n: nat): nat {
    (n + 8 - 1) / 8
  }

  /** Byte i of a buffer padded with 0xFF to whole words. */
  function Padded(data: bytes, i: nat): byte {
    if i < |data| then data[i] else 255
  }

  function WordAt(data: bytes, i: nat): (w: bytes)
    ensures |w| == 8
  {
    seq(8, j requires 0 <= j < 8 => Padded(data, 8 * i + j))
  }

  /** The word programs that store a buffer at an aligned address, in ascending order. */
  function Programs(addr: nat, data: bytes): (ops: seq<Op>)
    ensures |ops| == WordCount(|data|)
    ensures forall i :: 0 <= i < |ops| ==> ops[i] == Program(addr + 8 * i, WordAt(data, i))
  {
    seq(WordCount(|data|), i requires 0 <= i => Program(addr + 8 * i, WordAt(data, i)))
  }

  ghost predicate Erased(c: Chip, lo: nat, hi: nat)
    requires IsChip(c) && hi <= FLASH_SIZE
  {
    && (forall i :: lo <= i < hi ==> c.mem[i] == 255)
    && (forall w: nat :: lo <= w < hi && w % 8 == 0 ==> w in c.clean)
  }

  lemma ProgramsInRange(addr: nat, data: bytes)
    requires addr % 8 == 0 && addr + 8 * WordCount(|data|) <= FLASH_SIZE
    ensures AllInRange(Programs(addr, data))
  {
  }

  /** r is c after k words of the buffer: a prefix of the padded buffer is stored, the rest of
      the region is still erased, and nothing else changed. */
  ghost predicate Programmed(c: Chip, r: Chip, addr: nat, data: bytes, k: nat)
    requires IsChip(c) && IsChip(r) && addr + 8 * WordCount(|data|) <= FLASH_SIZE
    requires k <= WordCount(|data|)
  {
    && (forall i :: addr <= i < addr + 8 * k ==> r.mem[i] == Padded(data, i - addr))
    && Erased(r, addr + 8 * k, addr + 8 * WordCount(|data|))
    && SameOn(c, r, 0, addr)
    && SameOn(c, r, addr + 8 * WordCount(|data|), FLASH_SIZE)
  }

  /** Programming the first k words of a buffer onto an erased region, in ascending order. */
  lemma {:induction false} ProgramsEffect(c: Chip, addr: nat, data: bytes, k: nat)
    requires IsChip(c) && addr % 8 == 0 && addr + 8 * WordCount(|data|) <= FLASH_SIZE
    requires k <= WordCount(|data|)
    requires Erased(c, addr, addr + 8 * WordCount(|data|))
    ensures AllInRange(Programs(addr, data)[..k])
    ensures Programmed(c, Run(c, Programs(addr, data)[..k]), addr, data, k)
  {
    hide Programs, Run, Programmed, WordCount, InRange;
    ProgramsInRange(addr, data);
    if k == 0 {
      NothingProgrammed(c, addr, data);
    } else {
      ProgramsEffect(c, addr, data, k - 1);
      ProgrammedOneMore(c, Run(c, Programs(addr, data)[..k - 1]), addr, data, k - 1);
      RunPrefix(c, Programs(addr, data), k - 1);
    }
  }

  lemma NothingProgrammed(c: Chip, addr: nat, data: bytes)
    requires IsChip(c) && addr + 8 * WordCount(|data|) <= FLASH_SIZE
    requires Erased(c, addr, addr + 8 * WordCount(|data|))
    ensures Run(c, []) == c && Programmed(c, c, addr, data, 0)
  {
  }

  lemma RunPrefix(c: Chip, ops: seq<Op>, k: nat)
    requires IsChip(c) && AllInRange(ops) && k < |ops|
    ensures AllInRange(ops[..k]) && AllInRange(ops[..k + 1])
    ensures Run(c, ops[..k + 1]) == Step(Run(c, ops[..k]), ops[k])
  {
    assert ops[..k + 1][..k] == ops[..k];
  }

  lemma WordByte(data: bytes, k: nat, j: nat)
    requires j < 8
    ensures WordAt(data, k)[j] == Padded(data, 8 * k + j)
  {
  }

  lemma ProgramsWriteOnce(c: Chip, addr: nat, data: bytes)
    requires IsChip(c) && addr % 8 == 0 && addr + 8 * WordCount(|data|) <= FLASH_SIZE
    requires Erased(c, addr, addr + 8 * WordCount(|data|))
    ensures AllInRange(Programs(addr, data))
    ensures WriteOnce(c, Programs(addr, data))
  {
    ProgramsInRange(addr, data);
    forall k | 0 <= k < |Programs(addr, data)|
      ensures Legal(Run(c, Programs(addr, data)[..k]), Programs(addr, data)[k])
    {
      ProgramsEffect(c, addr, data, k);
    }
  }

  lemma ProgrammedOneMore(c: Chip, before: Chip, addr: nat, data: bytes, k: nat)
    requires IsChip(c) && IsChip(before) && addr % 8 == 0 && addr + 8 * WordCount(|data|) <= FLASH_SIZE
    requires k < WordCount(|data|)
    requires Programmed(c, before, addr, data, k)
    ensures InRange(Program(addr + 8 * k, WordAt(data, k)))
    ensures Legal(before, Program(addr + 8 * k, WordAt(data, k)))
    ensures Programmed(c, Step(before, Program(addr + 8 * k, WordAt(data, k))), addr, data, k + 1)
  {
    hide And8, WordAt;
    var at := addr + 8 * k;
    var after := Step(before, Program(at, WordAt(data, k)));
    forall i | at <= i < at + 8
      ensures after.mem[i] == Padded(data, i - addr)
    {
      AndErased(WordAt(data, k)[i - at]);
      WordByte(data, k, i - at);
    }
  }

  /** Programming a whole buffer onto an erased region stores it and changes nothing else. */
  lemma ProgramWhole(c: Chip, addr: nat, data: bytes)
    requires IsChip(c) && addr % 8 == 0 && addr + 8 * WordCount(|data|) <= FLASH_SIZE
    requires Erased(c, addr, addr + 8 * WordCount(|data|))
    ensures AllInRange(Programs(addr, data)) && WriteOnce(c, Programs(addr, data))
    ensures var d := Run(c, Programs(addr, data));
            && d.mem[addr..addr + |data|] == data
            && SameOn(c, d, 0, addr) && SameOn(c, d, addr + 8 * WordCount(|data|), FLASH_SIZE)
  {
    var ops := Programs(addr, data);
    ProgramsEffect(c, addr, data, |ops|);
    assert ops[..|ops|] == ops;
    ProgramsWriteOnce(c, addr, data);
  }
}
