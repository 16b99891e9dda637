/** simple_flash.c: erase, read and write on the flash controller. Every controller command that
    takes effect is appended to a ghost log, so a power cut is a prefix of that log. */
module FlashDevice {
  import opened Bytes
  import opened Flash

  /** The log grew by a prefix of ops, and by all of ops exactly when ok holds. */
  ghost predicate Extends(before: seq<Op>, after: seq<Op>, ops: seq<Op>, ok: bool) {
    && |before| <= |after| <= |before| + |ops|
    && after == before + ops[..|after| - |before|]
    && (ok <==> |after| == |before| + |ops|)
  }

  lemma ExtendsThen(a: seq<Op>, b: seq<Op>, c: seq<Op>, x: seq<Op>, y: seq<Op>, ok: bool)
    requires Extends(a, b, x, true) && Extends(b, c, y, ok)
    ensures Extends(a, c, x + y, ok)
  {
    assert (x + y)[..|c| - |a|] == x + y[..|c| - |b|];
  }

  lemma ExtendsStop(a: seq<Op>, b: seq<Op>, x: seq<Op>, y: seq<Op>)
    requires Extends(a, b, x, false)
    ensures Extends(a, b, x + y, false)
  {
    assert (x + y)[..|b| - |a|] == x[..|b| - |a|];
  }

  class Device {
    const mem: array<byte>
    /** False when the controller may report a failed command. */
    const reliable: bool
    ghost var clean: iset<nat>
    ghost var log: seq<Op>
    ghost const origin: Chip

    ghost predicate Valid()
      reads this, mem
    {
      && mem.Length == FLASH_SIZE && IsChip(origin) && AllInRange(log)
      && View() == Run(origin, log)
    }

    ghost function View(): Chip
      reads this, mem
    {
      Chip(mem[..], clean)
    }

    constructor (contents: bytes, ghost erased: iset<nat>, faultless: bool)
      requires |contents| == FLASH_SIZE
      ensures Valid() && fresh(mem)
      ensures View() == Chip(contents, erased) && log == [] && reliable == faultless
    {
      mem := new byte[FLASH_SIZE](i requires 0 <= i < FLASH_SIZE => contents[i]);
      reliable := faultless;
      clean := erased;
      log := [];
      origin := Chip(contents, erased);
      new;
      assert mem[..] == contents;
    }

    method ErasePage(address: nat) returns (ok: bool)
      requires Valid() && InRange(Erase(address))
      modifies `clean, `log, mem
      ensures Valid() && (reliable ==> ok)
      ensures Extends(old(log), log, [Erase(address)], ok)
    {
      hide Run, AllInRange;
      ok := Attempt();
      if ok {
        forall i | address <= i < address + 1024 {
          mem[i] := 255;
        }
        clean := clean + (iset w: nat | address <= w < address + 1024 && w % 8 == 0);
        RunOneMore(origin, log, Erase(address));
        log := log + [Erase(address)];
        assert View().mem == Step(old(View()), Erase(address)).mem;
      }
    }

    /** Whether the controller completes the next command. */
    method Attempt() returns (ok: bool)
      ensures reliable ==> ok
    {
      if reliable {
        ok := true;
      } else {
        ok := *;
      }
    }

    /** One 64-bit programming command of the driver. */
    method ProgramWord(address: nat, word: bytes) returns (ok: bool)
      requires Valid() && InRange(Program(address, word))
      modifies `clean, `log, mem
      ensures Valid() && (reliable ==> ok)
      ensures Extends(old(log), log, [Program(address, word)], ok)
    {
      hide And8, Run, AllInRange;
      ok := Attempt();
      if ok {
        forall i | address <= i < address + 8 {
          mem[i] := And8(mem[i], word[i - address]);
        }
        clean := clean - iset{address};
        RunOneMore(origin, log, Program(address, word));
        log := log + [Program(address, word)];
        assert View().mem == Step(old(View()), Program(address, word)).mem;
      }
    }

    /** DL_FlashCTL_programMemoryBlockingFromRAM64WithECCGenerated: whole words, in order. */
    method ProgramBlock(address: nat, block: bytes) returns (ok: bool)
      requires Valid() && address % 8 == 0 && |block| % 8 == 0 && address + |block| <= FLASH_SIZE
      modifies `clean, `log, mem
      ensures Valid() && (reliable ==> ok)
      ensures Extends(old(log), log, Programs(address, block), ok)
    {
      hide Programs, InRange, AllInRange, Run, Step;
      var i := 0;
      WholeBlock(block);
      while i < |block| / 8
        invariant 0 <= i <= |block| / 8 && Valid()
        invariant Extends(old(log), log, Programs(address, block)[..i], true)
      {
        ghost var before := log;
        WordFits(address, block, i);
        ok := ProgramWord(address + 8 * i, block[8 * i..8 * i + 8]);
        NextWord(old(log), before, log, address, block, i, ok);
        if !ok {
          return;
        }
        i := i + 1;
      }
      assert Programs(address, block)[..i] == Programs(address, block);
      return true;
    }

    /** Store a buffer, padding each 64-byte step to whole 8-byte words with 0xFF. */
    method Write(address: nat, data: bytes) returns (ok: bool)
      requires Valid() && address % 8 == 0 && address + 8 * WordCount(|data|) <= FLASH_SIZE
      modifies `clean, `log, mem
      ensures Valid() && (reliable ==> ok)
      ensures Extends(old(log), log, Programs(address, data), ok)
    {
      hide Programs, PadBlock, Run, Step, InRange;
      var done := 0;
      while done < |data|
        invariant 0 <= done <= |data| && Valid()
        invariant done % 64 == 0 || done == |data|
        invariant Extends(old(log), log, Programs(address, data)[..WordCount(done)], true)
      {
        var size := if |data| - done < 64 then |data| - done else 64;
        var block := PadBlock(data[done..done + size]);
        StepFits(address, |data|, done, size);
        ghost var before := log;
        ok := ProgramBlock(address + done, block);
        NextBlock(old(log), before, log, address, data, done, size, ok);
        if !ok {
          return;
        }
        done := done + size;
      }
      assert Programs(address, data)[..WordCount(done)] == Programs(address, data);
      return true;
    }

    method Read(address: nat, size: nat) returns (data: bytes)
      requires Valid() && address + size <= FLASH_SIZE
      ensures data == View().mem[address..address + size]
    {
      data := mem[address..address + size];
    }
  }

  /** A step's bytes followed by the 0xFF fill up to an even number of 32-bit words. */
  function PadBlock(chunk: bytes): (r: bytes)
    requires |chunk| <= 64
    ensures |r| == 8 * WordCount(|chunk|)
    ensures forall i :: 0 <= i < |r| ==> r[i] == Padded(chunk, i)
  {
    var words := (|chunk| + 3) / 4;
    var even := if words % 2 != 0 then words + 1 else words;
    (chunk + Fill(255, 64 - |chunk|))[..4 * even]
  }

  lemma StepFits(address: nat, total: nat, done: nat, size: nat)
    requires address % 8 == 0 && address + 8 * WordCount(total) <= FLASH_SIZE
    requires done % 64 == 0 && done + size <= total && size <= 64 && (size == 64 || done + size == total)
    ensures (address + done) % 8 == 0 && address + done + 8 * WordCount(size) <= FLASH_SIZE
    ensures (done + size) % 64 == 0 || done + size == total
  {
    hide WordCount;
    var a, q := address / 8, done / 64;
    assert address + done == 8 * (a + 8 * q);
    WordsAfter(8 * q, total - done);
    WordsCover(total - done, size);
    if size == 64 {
      assert done + size == 64 * (q + 1);
    }
  }

  lemma WordsAfter(q: nat, n: nat)
    ensures WordCount(8 * q + n) == q + WordCount(n)
  {
  }

  lemma WordsCover(total: nat, size: nat)
    requires size <= total
    ensures WordCount(size) <= WordCount(total)
  {
  }

  lemma NextWord(start: seq<Op>, before: seq<Op>, after: seq<Op>, address: nat, block: bytes, i: nat, ok: bool)
    requires i < WordCount(|block|)
    requires Extends(start, before, Programs(address, block)[..i], true)
    requires Extends(before, after, [Program(address + 8 * i, WordAt(block, i))], ok)
    ensures ok ==> Extends(start, after, Programs(address, block)[..i + 1], true)
    ensures !ok ==> Extends(start, after, Programs(address, block), false)
  {
    var all := Programs(address, block);
    ExtendsThen(start, before, after, all[..i], [all[i]], ok);
    assert all[..i] + [all[i]] == all[..i + 1];
    if !ok {
      ExtendsStop(start, after, all[..i + 1], all[i + 1..]);
      assert all[..i + 1] + all[i + 1..] == all;
    }
  }

  lemma NextBlock(start: seq<Op>, before: seq<Op>, after: seq<Op>, address: nat, data: bytes, done: nat, size: nat, ok: bool)
    requires done % 64 == 0 && done + size <= |data| && size <= 64 && (size == 64 || done + size == |data|)
    requires Extends(start, before, Programs(address, data)[..WordCount(done)], true)
    requires Extends(before, after, Programs(address + done, PadBlock(data[done..done + size])), ok)
    ensures ok ==> Extends(start, after, Programs(address, data)[..WordCount(done + size)], true)
    ensures !ok ==> Extends(start, after, Programs(address, data), false)
  {
    hide Programs, PadBlock, Extends, WordCount;
    WordsOfSteps(done, size);
    var all, block := Programs(address, data), PadBlock(data[done..done + size]);
    var mid, end := WordCount(done), WordCount(done + size);
    BlockWords(address, data, mid, size);
    ExtendsThen(start, before, after, all[..mid], all[mid..end], ok);
    assert all[..mid] + all[mid..end] == all[..end];
    if !ok {
      ExtendsStop(start, after, all[..end], all[end..]);
      assert all[..end] + all[end..] == all;
    }
  }

  lemma WholeBlock(block: bytes)
    requires |block| % 8 == 0
    ensures |block| == 8 * (|block| / 8) && WordCount(|block|) == |block| / 8
  {
  }

  lemma WordFits(address: nat, block: bytes, i: nat)
    requires address % 8 == 0 && address + |block| <= FLASH_SIZE && 8 * i + 8 <= |block|
    ensures InRange(Program(address + 8 * i, block[8 * i..8 * i + 8]))
    ensures WordAt(block, i) == block[8 * i..8 * i + 8]
  {
    WholeWord(block, i);
  }

  lemma WholeWord(block: bytes, i: nat)
    requires 8 * i + 8 <= |block|
    ensures WordAt(block, i) == block[8 * i..8 * i + 8]
  {
    forall j | 0 <= j < 8
      ensures WordAt(block, i)[j] == block[8 * i..8 * i + 8][j]
    {
    }
  }

  lemma WordsOfSteps(done: nat, size: nat)
    requires done % 64 == 0
    ensures done == 8 * WordCount(done) && WordCount(done + size) == WordCount(done) + WordCount(size)
  {
    var q := done / 64;
    assert done == 8 * (8 * q);
    assert WordCount(0) == 0;
    hide WordCount;
    WordsAfter(8 * q, 0);
    WordsAfter(8 * q, size);
  }

  /** The words of one 64-byte step are the words of the whole buffer at that position. */
  lemma BlockWords(address: nat, data: bytes, mid: nat, size: nat)
    requires 8 * mid + size <= |data| && size <= 64 && (size == 64 || 8 * mid + size == |data|)
    ensures mid + WordCount(size) <= WordCount(|data|)
    ensures Programs(address + 8 * mid, PadBlock(data[8 * mid..8 * mid + size]))
         == Programs(address, data)[mid..mid + WordCount(size)]
  {
    hide WordAt, PadBlock, Padded, WordCount, Programs;
    WordsFit(mid, size, |data|);
    var block := PadBlock(data[8 * mid..8 * mid + size]);
    var part, all := Programs(address + 8 * mid, block), Programs(address, data);
    forall i | 0 <= i < WordCount(size)
      ensures part[i] == all[mid + i]
    {
      BlockWord(data, mid, size, i);
    }
  }

  lemma WordsFit(mid: nat, size: nat, total: nat)
    requires 8 * mid + size <= total
    ensures mid + WordCount(size) <= WordCount(total) && WordCount(8 * WordCount(size)) == WordCount(size)
  {
  }

  lemma BlockWord(data: bytes, mid: nat, size: nat, i: nat)
    requires 8 * mid + size <= |data| && size <= 64 && (size == 64 || 8 * mid + size == |data|)
    requires i < WordCount(size)
    ensures WordAt(PadBlock(data[8 * mid..8 * mid + size]), i) == WordAt(data, mid + i)
  {
    hide WordAt, PadBlock, Padded, WordCount;
    var block := PadBlock(data[8 * mid..8 * mid + size]);
    forall j | 0 <= j < 8
      ensures WordAt(block, i)[j] == WordAt(data, mid + i)[j]
    {
      WordByte(block, i, j);
      WordByte(data, mid + i, j);
      PaddedStep(data, 8 * mid, size, 8 * i + j);
    }
  }

  lemma PaddedStep(data: bytes, done: nat, size: nat, k: nat)
    requires done + size <= |data| && size <= 64 && (size == 64 || done + size == |data|)
    requires k < 8 * WordCount(size)
    ensures Padded(PadBlock(data[done..done + size]), k) == Padded(data, done + k)
  {
    hide PadBlock;
    assert size == 64 ==> k < size;
  }
}
