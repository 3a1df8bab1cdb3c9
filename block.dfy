/** A block and its proof of work: the hex encoding of the digest, the
    leading-zero test, the retry with a fresh magic number, and the one-step
    difficulty rule that sets the block's outgoing difficulty.

    SHA-256 (with the UTF-8 encoding of its input), the clock and
    `java.util.Random` are parameters: `sha` maps the hashed text to its
    32-byte digest, `draws(k)` is the k-th `nextInt()` of the search's
    `Random`, and `elapsed` is the measured search time in whole seconds. */
module Blocks {
  import opened JavaLang
  import opened Config

  /** A SHA-256 digest. */
  type Digest = d: seq<Byte> | |d| == 32 witness seq(32, _ => 0)

  // ---------------------------------------------------------------------
  // Hex encoding
  // ---------------------------------------------------------------------

  predicate IsLowerHex(c: char) { '0' <= c <= '9' || 'a' <= c <= 'f' }

  function HexDigit(v: int): (c: char)
    requires 0 <= v < 16
    ensures IsLowerHex(c)
  {
    if v < 10 then ('0' as int + v) as char else ('a' as int + v - 10) as char
  }

  function HexValue(c: char): (v: nat)
    requires IsLowerHex(c)
    ensures v < 16 && HexDigit(v) == c
  {
    if c <= '9' then c as int - '0' as int else c as int - 'a' as int + 10
  }

  /** `Integer.toHexString(0xff & b)`: lowercase, without a leading zero,
      and read back as `b`. */
  function ToHexString(b: Byte): (s: string)
    ensures |s| == if b < 16 then 1 else 2
    ensures |s| == 1 ==> IsLowerHex(s[0]) && HexValue(s[0]) == b
    ensures |s| == 2 ==> IsLowerHex(s[0]) && IsLowerHex(s[1]) && s[0] != '0'
                         && HexValue(s[0]) * 16 + HexValue(s[1]) == b
  {
    if b < 16 then [HexDigit(b)] else [HexDigit(b / 16), HexDigit(b % 16)]
  }

  /** The `'0'` appended before a one-character `toHexString`. */
  function Pad(b: Byte): string
  {
    if |ToHexString(b)| == 1 then "0" else ""
  }

  /** The two characters one digest byte contributes to the hash. */
  function ByteHex(b: Byte): string
  {
    [HexDigit(b / 16), HexDigit(b % 16)]
  }

  /** The pad followed by `toHexString` is always exactly the two-digit form,
      and the pad is never more than its first character. */
  lemma PadThenHex(b: Byte)
    ensures Pad(b) + ToHexString(b) == ByteHex(b)
    ensures |Pad(b)| <= 1 && Pad(b) == ByteHex(b)[..|Pad(b)|]
  {
  }

  /** The hex string built from a digest. */
  function Hex(d: seq<Byte>): (s: string)
    ensures |s| == 2 * |d|
    ensures forall k :: 0 <= k < |s| ==> IsLowerHex(s[k])
  {
    if d == [] then [] else ByteHex(d[0]) + Hex(d[1..])
  }

  lemma {:induction false} HexConcat(a: seq<Byte>, b: seq<Byte>)
    ensures Hex(a + b) == Hex(a) + Hex(b)
  {
    if a != [] {
      assert (a + b)[1..] == a[1..] + b;
      HexConcat(a[1..], b);
    } else {
      assert a + b == b;
    }
  }

  /** Reading a hex string back into bytes. */
  function UnHex(s: string): seq<Byte>
    requires |s| % 2 == 0 && forall k :: 0 <= k < |s| ==> IsLowerHex(s[k])
  {
    if s == [] then [] else [HexValue(s[0]) * 16 + HexValue(s[1])] + UnHex(s[2..])
  }

  /** The two characters of a byte read back as that byte. */
  lemma ByteHexRoundTrip(b: Byte)
    ensures HexValue(ByteHex(b)[0]) * 16 + HexValue(ByteHex(b)[1]) == b
  {
  }

  /** UnHex reads one byte from the first two characters. */
  lemma UnHexCons(b: Byte, rest: string)
    requires |rest| % 2 == 0 && forall k :: 0 <= k < |rest| ==> IsLowerHex(rest[k])
    ensures var s := ByteHex(b) + rest;
      && |s| % 2 == 0 && (forall k :: 0 <= k < |s| ==> IsLowerHex(s[k]))
      && UnHex(s) == [b] + UnHex(rest)
  {
    var s := ByteHex(b) + rest;
    assert s[2..] == rest;
    ByteHexRoundTrip(b);
  }

  /** The hex string loses nothing: the digest can be read back from it. */
  lemma {:induction false} HexRoundTrip(d: seq<Byte>)
    ensures UnHex(Hex(d)) == d
  {
    if d != [] {
      HexRoundTrip(d[1..]);
      UnHexCons(d[0], Hex(d[1..]));
      assert d == [d[0]] + d[1..];
    }
  }

  /** Different digests give different hash strings. */
  lemma HexInjective(d1: seq<Byte>, d2: seq<Byte>)
    requires Hex(d1) == Hex(d2)
    ensures d1 == d2
  {
    HexRoundTrip(d1);
    HexRoundTrip(d2);
  }

  // ---------------------------------------------------------------------
  // The proof-of-work puzzle
  // ---------------------------------------------------------------------

  /** The block fields that go into the hash. The block's data does not. */
  datatype Header = Header(id: Int64, timeStamp: Int64, prevBlockHash: string)

  /** `id + timeStamp + prevBlockHash + magicNumber`: Java adds the two longs
      first (with 64-bit wrap-around) and only then turns to string
      concatenation. */
  function HashInput(h: Header, magicNumber: Int32): string
  {
    Decimal(Wrap64(h.id + h.timeStamp)) + h.prevBlockHash + Decimal(magicNumber)
  }

  /** A decimal followed by a fixed text gives that decimal back. */
  lemma DecimalBeforeTail(a: int, b: int, tail: string)
    requires Decimal(a) + tail == Decimal(b) + tail
    ensures a == b
  {
    var x, y := Decimal(a), Decimal(b);
    assert "" + x + tail == x + tail && "" + y + tail == y + tail;
    CancelAround("", x, y, tail);
    DecimalInjective(a, b);
  }

  /** `id` and `timeStamp` enter the hashed text only through their wrapped
      `long` sum: for one predecessor hash and one magic number, two headers
      give the same text exactly when their sums agree modulo 2^64. */
  lemma IdAndTimeStampOnlySummed(h1: Header, h2: Header, magicNumber: Int32)
    requires h1.prevBlockHash == h2.prevBlockHash
    ensures HashInput(h1, magicNumber) == HashInput(h2, magicNumber)
        <==> Wrap64(h1.id + h1.timeStamp) == Wrap64(h2.id + h2.timeStamp)
  {
    var s1, s2 := Wrap64(h1.id + h1.timeStamp), Wrap64(h2.id + h2.timeStamp);
    var tail := h1.prevBlockHash + Decimal(magicNumber);
    assert HashInput(h1, magicNumber) == Decimal(s1) + tail;
    assert HashInput(h2, magicNumber) == Decimal(s2) + tail;
    if HashInput(h1, magicNumber) == HashInput(h2, magicNumber) {
      DecimalBeforeTail(s1, s2, tail);
    }
  }

  /** A consequence: the next block at some time and the block after it one
      second later hash the same text for the same magic number. */
  lemma LaterIdEarlierTimeCollide(id: Int64, timeStamp: Int64, prevBlockHash: string, magicNumber: Int32)
    requires id + 1 <= 0x7fff_ffff_ffff_ffff && timeStamp + 1 <= 0x7fff_ffff_ffff_ffff
    ensures HashInput(Header(id + 1, timeStamp, prevBlockHash), magicNumber)
         == HashInput(Header(id, timeStamp + 1, prevBlockHash), magicNumber)
  {
    IdAndTimeStampOnlySummed(Header(id + 1, timeStamp, prevBlockHash), Header(id, timeStamp + 1, prevBlockHash), magicNumber);
  }

  /** For one block, different magic numbers give different hashed texts:
      drawing a new number changes what is hashed. */
  lemma HashInputDeterminesMagic(h: Header, m1: Int32, m2: Int32)
    requires HashInput(h, m1) == HashInput(h, m2)
    ensures m1 == m2
  {
    var prefix := Decimal(Wrap64(h.id + h.timeStamp)) + h.prevBlockHash;
    var x, y := Decimal(m1), Decimal(m2);
    assert HashInput(h, m1) == prefix + x;
    assert HashInput(h, m2) == prefix + y;
    assert x == (prefix + x)[|prefix|..];
    assert y == (prefix + y)[|prefix|..];
    DecimalInjective(m1, m2);
  }

  /** The test the search applies: the hex string of the digest starts with
      `q` zeros. */
  predicate Accepts(d: Digest, q: nat)
  {
    StartsWith(Hex(d), Zeros(q))
  }

  /** One run of `generateHash`: the hashed fields, the magic number the
      block holds when the run starts, the digest function and the stream of
      random draws of that run. */
  datatype Puzzle = Puzzle(header: Header, startMagic: Int32, sha: string -> Digest, draws: nat -> Int32)
  {
    /** The magic number of attempt `n`: the starting one, then
        `Math.abs(random.nextInt())` after each rejection. */
    function MagicAt(n: nat): Int32
    {
      if n == 0 then startMagic else JavaAbs(draws(n - 1))
    }

    function DigestAt(n: nat): Digest
    {
      sha(HashInput(header, MagicAt(n)))
    }

    predicate AcceptedAt(q: nat, n: nat)
    {
      Accepts(DigestAt(n), q)
    }

    /** Some attempt of the run succeeds, so the search ends. */
    ghost predicate Solvable(q: nat)
    {
      exists n: nat :: AcceptedAt(q, n)
    }

    /** Attempt `n` is the first that succeeds. */
    predicate FirstAccepted(q: nat, n: nat)
    {
      AcceptedAt(q, n) && forall k :: 0 <= k < n ==> !AcceptedAt(q, k)
    }

    /** The search ended at attempt `n` with this magic number and hash. */
    predicate SolvedBy(q: nat, n: nat, magic: Int32, hash: string)
    {
      FirstAccepted(q, n) && magic == MagicAt(n) && hash == Hex(DigestAt(n))
    }
  }

  /** The first successful attempt is unique, so the search is determined
      by its inputs. */
  lemma FirstAcceptedUnique(p: Puzzle, q: nat, n1: nat, n2: nat)
    requires p.FirstAccepted(q, n1) && p.FirstAccepted(q, n2)
    ensures n1 == n2
  {
  }

  /** With difficulty 0 the very first attempt is accepted. */
  lemma ZeroDifficultyAcceptsFirstAttempt(p: Puzzle)
    ensures p.FirstAccepted(0, 0)
  {
    StartsWithZeros(Hex(p.DigestAt(0)), 0);
  }

  /** The inner loop tests the hex string as it stands after byte `i`'s pad:
      a prefix of the full hex string. When that prefix has at least `q`
      characters, its test agrees with the test on the whole string. */
  lemma CheckedPrefix(d: Digest, i: nat, q: nat)
    requires i < |d|
    requires q <= |Hex(d[..i]) + Pad(d[i])|
    ensures StartsWith(Hex(d[..i]) + Pad(d[i]), Zeros(q)) <==> Accepts(d, q)
  {
    var checked := Hex(d[..i]) + Pad(d[i]);
    assert d == d[..i] + ([d[i]] + d[i + 1..]);
    HexConcat(d[..i], [d[i]] + d[i + 1..]);
    HexConcat([d[i]], d[i + 1..]);
    assert Hex([d[i]]) == ByteHex(d[i]);
    PadThenHex(d[i]);
    assert Hex(d)[..|checked|] == checked;
    StartsWithLongerPrefix(Hex(d), checked, Zeros(q));
  }

  /** One step of the inner loop: the pad and `toHexString` of byte `i`
      extend the hex string of the first `i` bytes to that of the first
      `i + 1`. */
  lemma HexStep(d: seq<Byte>, i: nat)
    requires i < |d|
    ensures |Hex(d[..i]) + Pad(d[i])| == 2 * i + |Pad(d[i])|
    ensures Hex(d[..i]) + Pad(d[i]) + ToHexString(d[i]) == Hex(d[..i + 1])
  {
    PadThenHex(d[i]);
    assert d[..i + 1] == d[..i] + [d[i]];
    HexConcat(d[..i], [d[i]]);
    assert Hex([d[i]]) == ByteHex(d[i]);
  }

  // ---------------------------------------------------------------------
  // The difficulty rule
  // ---------------------------------------------------------------------

  /** The outgoing difficulty of a block mined at difficulty `q` in
      `elapsed` seconds. The second test compares the difficulty itself, not
      the time, with BLOCK_MAX_CREATION_SECONDS. */
  function NextDifficulty(elapsed: int, q: int): (r: int)
    ensures q - 1 <= r <= q + 1
    ensures r == q + 1 <==> elapsed < BLOCK_MIN_CREATION_SECONDS
    ensures q >= 0 ==> r >= 0
  {
    if elapsed < BLOCK_MIN_CREATION_SECONDS then q + 1
    else if q < BLOCK_MAX_CREATION_SECONDS then q
    else q - 1
  }

  /** Once the search took at least the minimum time, how long it took makes
      no difference to the outcome. */
  lemma DifficultyIgnoresSlowness(e1: int, e2: int, q: int)
    requires e1 >= BLOCK_MIN_CREATION_SECONDS && e2 >= BLOCK_MIN_CREATION_SECONDS
    ensures NextDifficulty(e1, q) == NextDifficulty(e2, q)
  {
  }

  /** The difficulty after a run of blocks mined in the given times. */
  function DifficultyAfter(q: int, elapsed: seq<int>): int
    decreases elapsed
  {
    if elapsed == [] then q else DifficultyAfter(NextDifficulty(elapsed[0], q), elapsed[1..])
  }

  /** With the configured thresholds, as long as no search is measured as
      faster than the minimum (a negative reading), every block lowers the
      difficulty by one until it reaches 0, however slow or fast mining is. */
  lemma {:induction false} DifficultyOnlyFalls(q: nat, elapsed: seq<int>)
    requires forall k :: 0 <= k < |elapsed| ==> elapsed[k] >= BLOCK_MIN_CREATION_SECONDS
    ensures DifficultyAfter(q, elapsed) == if q >= |elapsed| then q - |elapsed| else 0
  {
    if elapsed != [] {
      DifficultyOnlyFalls(NextDifficulty(elapsed[0], q), elapsed[1..]);
    }
  }

  // ---------------------------------------------------------------------
  // The search loop of generateHash
  // ---------------------------------------------------------------------

  /** Whether an attempt's byte loop reaches the prefix test at all: some
      byte's pad brings the string to `q` characters. */
  predicate TestReached(d: Digest, q: nat)
  {
    exists i :: 0 <= i < |d| && 2 * i + |Pad(d[i])| >= q
  }

  /** The test is always reached up to difficulty 62; at 63 only when the
      last digest byte is below 16; beyond that never. An attempt that does
      not reach it ends with `generated` false and the magic number
      unchanged, so the source repeats the same attempt forever. */
  lemma TestReachedExactly(d: Digest, q: nat)
    ensures q <= 62 ==> TestReached(d, q)
    ensures q == 63 ==> (TestReached(d, q) <==> d[31] < 16)
    ensures q >= 64 ==> !TestReached(d, q)
  {
    if q <= 62 || (q == 63 && d[31] < 16) {
      assert 2 * 31 + |Pad(d[31])| >= q;
    }
  }

  /** The `for` loop over the digest bytes in one attempt of
      `generateHash`: append each byte's pad and `toHexString`, and at the
      first byte whose pad brings the string to `q` characters test for `q`
      leading zeros, leaving the loop on failure. With `q <= 62` the test is
      always reached (TestReachedExactly), so each attempt gives a verdict. */
  method ScanDigest(digest: Digest, q: nat) returns (hexString: string, generated: bool)
    requires q <= 62
    ensures generated <==> Accepts(digest, q)
    ensures generated ==> hexString == Hex(digest)
  {
    generated := false;
    hexString := [];
    var i := 0;
    while i < |digest|
      invariant 0 <= i <= |digest|
      invariant hexString == Hex(digest[..i])
      invariant generated ==> Accepts(digest, q)
      invariant !generated ==> 2 * i <= q + 1
    {
      var hex := ToHexString(digest[i]);
      HexStep(digest, i);
      if |hex| == 1 {
        hexString := hexString + "0";
      }
      assert hexString == Hex(digest[..i]) + Pad(digest[i]);
      if !generated && |hexString| >= q {
        CheckedPrefix(digest, i, q);
        if !StartsWith(hexString, Zeros(q)) {
          return;
        }
        generated := true;
      }
      hexString := hexString + hex;
      i := i + 1;
    }
    assert digest[..|digest|] == digest;
  }

  /** One more rejected attempt extends the run of rejections. */
  lemma RejectedPrefixGrows(p: Puzzle, q: nat, n: nat)
    requires forall k :: 0 <= k < n ==> !p.AcceptedAt(q, k)
    requires !p.AcceptedAt(q, n)
    ensures forall k :: 0 <= k < n + 1 ==> !p.AcceptedAt(q, k)
  {
  }

  /** The body of `generateHash`: hash, encode and test, drawing a new magic
      number after each rejection, until an attempt is accepted; then record
      the time taken and the outgoing difficulty. (The source draws the new
      number just before leaving the byte loop; here the draw follows
      ScanDigest's rejection, with nothing in between.) */
  method SearchHash(p: Puzzle, q: nat, elapsed: int)
    returns (hash: string, magicNumber: Int32, generatedHashTime: int, endQtyOfZeros: int, ghost attempts: nat)
    requires q <= 62
    requires p.Solvable(q)
    ensures p.SolvedBy(q, attempts, magicNumber, hash)
    ensures StartsWith(hash, Zeros(q)) && |hash| == 64
    ensures generatedHashTime == elapsed
    ensures endQtyOfZeros == NextDifficulty(elapsed, q)
  {
    ghost var bound: nat :| p.AcceptedAt(q, bound);
    magicNumber := p.startMagic;
    var rejected := 0;  // how many numbers the run's Random has produced
    var generated := false;
    hash := [];
    while !generated
      invariant rejected <= bound
      invariant magicNumber == p.MagicAt(rejected)
      invariant forall k :: 0 <= k < rejected ==> !p.AcceptedAt(q, k)
      invariant generated ==> p.AcceptedAt(q, rejected) && hash == Hex(p.DigestAt(rejected))
      decreases bound - rejected, if generated then 0 else 1
    {
      var digest := p.sha(HashInput(p.header, magicNumber));
      hash, generated := ScanDigest(digest, q);
      assert digest == p.DigestAt(rejected);
      if !generated {
        assert !p.AcceptedAt(q, rejected);
        assert rejected != bound;
        RejectedPrefixGrows(p, q, rejected);
        magicNumber := JavaAbs(p.draws(rejected));
        rejected := rejected + 1;
      }
    }
    attempts := rejected;
    StartsWithZeros(hash, q);
    generatedHashTime := elapsed;
    endQtyOfZeros := NextDifficulty(elapsed, q);
  }

  // ---------------------------------------------------------------------
  // The block
  // ---------------------------------------------------------------------

  /** `Block`: immutable except for the three fields a later call of
      `generateHash` rewrites. The Java getters are reads of the fields;
      `getQtyOfZeros` is `endQtyOfZeros`. */
  class Block {
    const startQtyOfZeros: int
    const id: Int64
    const timeStamp: Int64
    const prevBlockHash: string
    const hash: string
    const data: string
    const minerId: Int64
    var generatedHashTime: int
    var endQtyOfZeros: int
    var magicNumber: Int32

    /** The fields the proof of work hashes. */
    function HashedFields(): Header
    {
      Header(id, timeStamp, prevBlockHash)
    }

    /** The constructor: `data` is stored stripped, the hash is mined with a
        magic number starting at 0, and the miner is the calling thread.
        `timeStamp` is the clock reading and `threadId` the current thread's
        id. */
    constructor (data: string, prevBlockHash: string, id: Int64, qtyOfZeros: nat,
                 timeStamp: Int64, threadId: Int64,
                 sha: string -> Digest, draws: nat -> Int32, elapsed: int)
      requires qtyOfZeros <= 62
      requires Puzzle(Header(id, timeStamp, prevBlockHash), 0, sha, draws).Solvable(qtyOfZeros)
      ensures this.data == Strip(data)
      ensures this.prevBlockHash == prevBlockHash && this.id == id
      ensures startQtyOfZeros == qtyOfZeros && this.timeStamp == timeStamp
      ensures minerId == threadId
      ensures exists n: nat :: Puzzle(HashedFields(), 0, sha, draws).SolvedBy(qtyOfZeros, n, magicNumber, hash)
      ensures StartsWith(hash, Zeros(qtyOfZeros)) && |hash| == 64
      ensures generatedHashTime == elapsed
      ensures endQtyOfZeros == NextDifficulty(elapsed, qtyOfZeros)
    {
      this.data := Strip(data);
      this.prevBlockHash := prevBlockHash;
      this.id := id;
      this.startQtyOfZeros := qtyOfZeros;
      this.timeStamp := timeStamp;
      var puzzle := Puzzle(Header(id, timeStamp, prevBlockHash), 0, sha, draws);
      var h, m, t, e, n := SearchHash(puzzle, qtyOfZeros, elapsed);
      hash := h;
      magicNumber := m;
      generatedHashTime := t;
      endQtyOfZeros := e;
      minerId := threadId;
      new;
      assert puzzle == Puzzle(HashedFields(), 0, sha, draws);
      assert puzzle.SolvedBy(qtyOfZeros, n, magicNumber, hash);
    }

    /** `generateHash` called again on an existing block: it searches from
        the block's current magic number and rewrites the magic number, the
        time and the outgoing difficulty, but not the block's hash. */
    method GenerateHash(qtyOfZeros: nat, sha: string -> Digest, draws: nat -> Int32, elapsed: int)
      returns (hex: string)
      requires qtyOfZeros <= 62
      requires Puzzle(HashedFields(), magicNumber, sha, draws).Solvable(qtyOfZeros)
      modifies this`magicNumber, this`generatedHashTime, this`endQtyOfZeros
      ensures exists n: nat :: Puzzle(HashedFields(), old(magicNumber), sha, draws).SolvedBy(qtyOfZeros, n, magicNumber, hex)
      ensures StartsWith(hex, Zeros(qtyOfZeros)) && |hex| == 64
      ensures generatedHashTime == elapsed
      ensures endQtyOfZeros == NextDifficulty(elapsed, qtyOfZeros)
    {
      var puzzle := Puzzle(HashedFields(), magicNumber, sha, draws);
      ghost var n;
      hex, magicNumber, generatedHashTime, endQtyOfZeros, n := SearchHash(puzzle, qtyOfZeros, elapsed);
      assert puzzle.SolvedBy(qtyOfZeros, n, magicNumber, hex);
    }
  }
}
