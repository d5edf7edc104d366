/** chronoid/rand_tls.c: the per-thread ChaCha20 generator, a lazily refilled and wiped
    64-byte window on the keystream of the last seed. */
module RandTls {
  import opened Words
  import opened ChaCha20

  const RESEED_BYTES: int := 0x10_0000
  const RESEED_SECONDS: int := 3600

  /** What the platform answers during one call: pid and clock at the reseed check, the
      44 entropy bytes or a failure, and pid and clock again when a seed is taken. */
  datatype Env = Env(pid: int, now: int, entropy: Entropy, seedPid: int, seedNow: int)
  datatype Entropy = Failed | Bytes(kn: seq<byte>) {
    predicate Valid() { Bytes? ==> |kn| == 44 }
  }

  // ---- the keystream ----

  /** The word stored at `at`, least significant byte first. */
  function LittleEndianWord(kn: seq<byte>, at: nat): u32
    requires at + 4 <= |kn|
  {
    OrLittleEndian(kn[at], kn[at + 1], kn[at + 2], kn[at + 3]);
    var a, b, c, d := kn[at] as int, kn[at + 1] as int, kn[at + 2] as int, kn[at + 3] as int;
    Or(Or(Or(a, b * 0x100), c * 0x1_0000), d * 0x100_0000)
  }

  lemma {:induction false} OrLittleEndian(a: nat, b: nat, c: nat, d: nat)
    requires a < 0x100 && b < 0x100 && c < 0x100 && d < 0x100
    ensures Or(Or(Or(a, b * 0x100), c * 0x1_0000), d * 0x100_0000)
         == a + b * 0x100 + c * 0x1_0000 + d * 0x100_0000
  {
    hide Bits;
    Powers();
    OrDisjoint(8, b, a);
    OrDisjoint(16, c, a + b * 0x100);
    OrDisjoint(24, d, a + b * 0x100 + c * 0x1_0000);
  }

  const SIGMA: seq<u32> := [0x61707865, 0x3320646e, 0x79622d32, 0x6b206574]

  /** Word `w` of a seeded state: constants, key, block counter zero, nonce. */
  function SeedWord(kn: seq<byte>, w: nat): u32
    requires |kn| == 44 && w < 16
  {
    if w < 4 then SIGMA[w]
    else if w < 12 then LittleEndianWord(kn, 4 * (w - 4))
    else if w == 12 then 0
    else LittleEndianWord(kn, 4 * (w - 5))
  }

  function SeedState(kn: seq<byte>): State
    requires |kn| == 44
  {
    seq<u32>(16, w requires 0 <= w < 16 => SeedWord(kn, w))
  }

  const CONSTANT: string := "expand 32-byte k"

  function ConstantBytes(): seq<byte> {
    seq<byte>(16, i requires 0 <= i < 16 => ConstantByte(i))
  }

  function ConstantByte(i: int): byte
    requires 0 <= i < 16
  {
    CONSTANT[i] as int
  }

  /** The seeded state is, in bytes, the standard's constant, the key, a zero block counter and the
      nonce (RFC 8439, section 2.3). */
  lemma {:induction false} SeedLayout(kn: seq<byte>)
    requires |kn| == 44
    ensures Serialize(SeedState(kn)) == ConstantBytes() + kn[..32] + [0, 0, 0, 0] + kn[32..]
    ensures ConstantBytes() == [0x65, 0x78, 0x70, 0x61, 0x6e, 0x64, 0x20, 0x33,
                                0x32, 0x2d, 0x62, 0x79, 0x74, 0x65, 0x20, 0x6b]
  {
    ConstantCodes();
    hide SeedWord, LittleEndianByte, ConstantByte;
    var s := SeedState(kn);
    forall i | 0 <= i < 64
      ensures Serialize(s)[i] == (ConstantBytes() + kn[..32] + [0, 0, 0, 0] + kn[32..])[i]
    {
      SeedByte(kn, i / 4, i % 4);
    }
  }

  lemma {:induction false} ConstantCodes()
    ensures ConstantBytes() == [0x65, 0x78, 0x70, 0x61, 0x6e, 0x64, 0x20, 0x33,
                                0x32, 0x2d, 0x62, 0x79, 0x74, 0x65, 0x20, 0x6b]
  {
  }

  lemma {:induction false} SeedByte(kn: seq<byte>, w: nat, k: nat)
    requires |kn| == 44 && w < 16 && k < 4
    ensures LittleEndianByte(SeedWord(kn, w), k) ==
      if w < 4 then ConstantByte(4 * w + k) else if w < 12 then kn[4 * (w - 4) + k]
      else if w == 12 then 0 else kn[4 * (w - 5) + k]
  {
    if w < 4 {
      ConstantWord(w, k);
    } else if w != 12 {
      hide LittleEndianWord, LittleEndianByte, ConstantByte;
      WordBytes(kn, if w < 12 then 4 * (w - 4) else 4 * (w - 5), k);
    }
  }

  lemma {:induction false} ConstantWord(w: nat, k: nat)
    requires w < 4 && k < 4
    ensures LittleEndianByte(SIGMA[w], k) == ConstantByte(4 * w + k)
  {
    match w {
      case 0 => WordOf(0x65, 0x78, 0x70, 0x61, k); assert CONSTANT[0..4] == "expa";
      case 1 => WordOf(0x6e, 0x64, 0x20, 0x33, k); assert CONSTANT[4..8] == "nd 3";
      case 2 => WordOf(0x32, 0x2d, 0x62, 0x79, k); assert CONSTANT[8..12] == "2-by";
      case 3 => WordOf(0x74, 0x65, 0x20, 0x6b, k); assert CONSTANT[12..16] == "te k";
    }
  }

  lemma {:induction false} WordBytes(kn: seq<byte>, at: nat, k: nat)
    requires at + 4 <= |kn| && k < 4
    ensures LittleEndianByte(LittleEndianWord(kn, at), k) == kn[at + k]
  {
    hide Or, LittleEndianByte;
    OrLittleEndian(kn[at], kn[at + 1], kn[at + 2], kn[at + 3]);
    WordOf(kn[at], kn[at + 1], kn[at + 2], kn[at + 3], k);
  }

  lemma {:induction false} WordOf(a: byte, b: byte, c: byte, d: byte, k: nat)
    requires k < 4
    ensures var w := a as int + b as int * 0x100 + c as int * 0x1_0000 + d as int * 0x100_0000;
      w < 0x1_0000_0000 && LittleEndianByte(w, k) == [a, b, c, d][k]
  {
    var w := a as int + b as int * 0x100 + c as int * 0x1_0000 + d as int * 0x100_0000;
    assert w / 0x100 == b as int + (c as int + d as int * 0x100) * 0x100;
    assert w / 0x1_0000 == c as int + d as int * 0x100;
    assert w / 0x100_0000 == d as int;
    assert w % 0x100 == a as int;
  }

  /** Byte `i` of block(0) || block(1) || ... of a seed. */
  function KeyByte(seed: State, i: nat): byte {
    BlockBytes(Advance(seed, i / 64))[i % 64]
  }

  function Stream(seed: State, from: nat, n: nat): (s: seq<byte>)
    ensures |s| == n
  {
    seq<byte>(n, i requires 0 <= i < n => KeyByte(seed, from + i))
  }

  lemma {:induction false} StreamConcat(seed: State, from: nat, m: nat, n: nat)
    ensures Stream(seed, from, m + n) == Stream(seed, from, m) + Stream(seed, from + m, n)
  {
  }

  // ---- what the generator computes ----

  /** The generator seen from outside: the seed, how much of its keystream is gone, and the
      policy data.  `Unseeded` also covers a state whose `seeded` flag was cleared. */
  datatype View = Unseeded | Seeded(seed: State, pos: nat, time: int, pid: int)

  predicate ShouldReseed(v: View, env: Env) {
    || v.Unseeded?
    || v.pos % 0x1_0000_0000_0000_0000 >= RESEED_BYTES
    || env.pid != v.pid
    || env.now < v.time
    || env.now - v.time >= RESEED_SECONDS
  }

  datatype Reply = Reply(ok: bool, output: seq<byte>, view: View)

  /** One request for `n` bytes. */
  function Request(v: View, env: Env, n: nat): Reply
    requires env.entropy.Valid()
  {
    if !ShouldReseed(v, env) then Reply(true, Stream(v.seed, v.pos, n), v.(pos := v.pos + n))
    else if env.entropy.Failed? then Reply(false, [], v)
    else
      var seed := SeedState(env.entropy.kn);
      Reply(true, Stream(seed, 0, n), Seeded(seed, n, env.seedNow, env.seedPid))
  }

  // ---- the generator ----

  class TlsRng {
    const state: array<u32>
    const buf: array<byte>
    var bufPos: nat
    var bytesEmitted: u64
    var seedTime: int
    var seedPid: int
    var seeded: bool
    var inDestructor: bool
    ghost var seed: State
    ghost var pos: nat
    ghost var blocks: nat

    ghost predicate Shaped()
      reads this
    {
      state.Length == 16 && buf.Length == 64 && state as object != buf
    }

    /** The buffer is a window on the keystream: consumed bytes are zero, the rest is the unread
        tail of the latest block, and the accounts agree. */
    ghost predicate OnStream()
      requires Shaped()
      reads this, state, buf
    {
      && bufPos <= 64 && pos + (64 - bufPos) == 64 * blocks
      && bytesEmitted == pos % 0x1_0000_0000_0000_0000
      && state[..] == Advance(seed, blocks)
      && (forall i :: 0 <= i < bufPos ==> buf[i] == 0)
      && (forall i :: bufPos <= i < 64 ==> buf[i] == KeyByte(seed, pos + (i - bufPos)))
    }

    /** The bytes counted since the seed are the keystream position modulo 2^64. */
    lemma {:induction false} EmittedBelow(from: nat, n: nat)
      requires Shaped() && OnStream() && pos == from + n && from % 0x1_0000_0000_0000_0000 < RESEED_BYTES
      ensures bytesEmitted < RESEED_BYTES + n
    {
      hide KeyByte, Advance;
      Wrap(from, n);
      ModAtMost(from % 0x1_0000_0000_0000_0000 + n);
    }

    ghost predicate Valid()
      reads this, state, buf
    {
      Shaped() && (seeded ==> OnStream() && bufPos > 0)
    }

    ghost function Abstract(): View
      reads this
    {
      if seeded then Seeded(seed, pos, seedTime, seedPid) else Unseeded
    }

    /** Zero-initialised thread-local storage. */
    constructor ()
      ensures Valid() && Abstract() == Unseeded && !inDestructor
      ensures fresh(state) && fresh(buf)
    {
      state := new u32[16](_ => 0);
      buf := new byte[64](_ => 0);
      bufPos, bytesEmitted, seedTime, seedPid, seeded, inDestructor := 0, 0, 0, 0, false, false;
    }

    /** Constants, key, counter and nonce words into `state`. */
    method LoadKey(kn: seq<byte>)
      requires state.Length == 16 && |kn| == 44
      modifies state
      ensures state[..] == SeedState(kn)
    {
      hide LittleEndianWord;
      state[0], state[1], state[2], state[3] := SIGMA[0], SIGMA[1], SIGMA[2], SIGMA[3];
      for i := 0 to 8
        invariant forall w :: 0 <= w < 4 + i ==> state[w] == SeedWord(kn, w)
      {
        state[4 + i] := LittleEndianWord(kn, i * 4);
      }
      state[12] := 0;
      for i := 0 to 3
        invariant forall w :: 0 <= w < 13 + i ==> state[w] == SeedWord(kn, w)
      {
        state[13 + i] := LittleEndianWord(kn, 32 + i * 4);
      }
    }

    /** `chronoid_tls_rng_seed`. */
    method Seed(env: Env) returns (ok: bool)
      requires Shaped() && env.entropy.Valid()
      modifies this, state, buf
      ensures inDestructor == old(inDestructor)
      ensures ok == env.entropy.Bytes?
      ensures ok ==> Valid() && Abstract() == Seeded(SeedState(env.entropy.kn), 0, env.seedNow, env.seedPid)
      ensures !ok ==> unchanged(this, state, buf)
    {
      hide KeyByte, Advance, SeedState;
      if env.entropy.Failed? {
        return false;
      }
      var kn := env.entropy.kn;
      LoadKey(kn);
      ghost var s := SeedState(kn);
      forall i | 0 <= i < 64 {
        buf[i] := 0;
      }
      bufPos := 64;
      bytesEmitted := 0;
      seedPid := env.seedPid;
      seedTime := env.seedNow;
      seeded := true;
      seed, pos, blocks := s, 0, 0;
      AdvanceZero(s);
      assert state[..] == s;
      return true;
    }

    /** `chronoid_tls_rng_should_reseed`. */
    method ShouldReseedNow(env: Env) returns (b: bool)
      requires Valid()
      ensures b == ShouldReseed(Abstract(), env)
    {
      if !seeded {
        return true;
      }
      if bytesEmitted >= RESEED_BYTES {
        return true;
      }
      if env.pid != seedPid {
        return true;
      }
      if env.now < seedTime {
        return true;
      }
      return env.now - seedTime >= RESEED_SECONDS;
    }

    /** The next block replaces an exhausted buffer. */
    method Refill()
      requires Shaped() && OnStream() && bufPos == 64
      modifies this, state, buf
      ensures Shaped() && OnStream() && bufPos == 0
      ensures seed == old(seed) && pos == old(pos) && seeded == old(seeded)
      ensures seedTime == old(seedTime) && seedPid == old(seedPid) && inDestructor == old(inDestructor)
    {
      hide BlockBytes, Advance, Bump, IsStandardBlock, CountsOne;
      Block(buf, state);
      BumpAdvances(seed, blocks);
      bufPos := 0;
      blocks := blocks + 1;
      forall i | 0 <= i < 64
        ensures buf[i] == KeyByte(seed, pos + i)
      {
        assert (pos + i) / 64 == blocks - 1 && (pos + i) % 64 == i;
        assert buf[..][i] == BlockBytes(Advance(seed, blocks - 1))[i];
      }
    }

    /** Copy `chunk` bytes out of the window. */
    method CopyOut(dst: array<byte>, off: nat, chunk: nat)
      requires Shaped() && OnStream() && chunk <= 64 - bufPos
      requires dst != buf && dst as object != state && off + chunk <= dst.Length
      modifies dst
      ensures Shaped() && OnStream()
      ensures forall j :: off <= j < off + chunk ==> dst[j] == KeyByte(seed, pos + (j - off))
      ensures forall i :: 0 <= i < off || off + chunk <= i < dst.Length ==> dst[i] == old(dst[i])
    {
      hide KeyByte, Advance;
      forall i | 0 <= i < chunk {
        dst[off + i] := buf[bufPos + i];
      }
      forall j | off <= j < off + chunk
        ensures dst[j] == KeyByte(seed, pos + (j - off))
      {
        var i := bufPos + (j - off);
        assert dst[j] == buf[i] == KeyByte(seed, pos + (i - bufPos));
      }
    }

    /** Wipe `chunk` bytes of the window and account for them. */
    method Consume(chunk: nat)
      requires Shaped() && OnStream() && chunk <= 64 - bufPos
      modifies this, buf
      ensures Shaped() && OnStream() && bufPos == old(bufPos) + chunk
      ensures seed == old(seed) && pos == old(pos) + chunk && seeded == old(seeded)
      ensures seedTime == old(seedTime) && seedPid == old(seedPid) && inDestructor == old(inDestructor)
    {
      hide KeyByte, Advance;
      forall i | 0 <= i < chunk {
        buf[bufPos + i] := 0;
      }
      ghost var was := bufPos;
      bufPos := bufPos + chunk;
      Wrap(pos, chunk);
      bytesEmitted := (bytesEmitted + chunk) % 0x1_0000_0000_0000_0000;
      pos := pos + chunk;
      forall i | bufPos <= i < 64
        ensures buf[i] == KeyByte(seed, pos + (i - bufPos))
      {
        assert pos + (i - bufPos) == old(pos) + (i - was);
      }
    }

    /** The draw loop of `chronoid_random_bytes`. */
    method Draw(dst: array<byte>, off: nat, n: nat)
      requires Valid() && seeded
      requires dst != buf && dst as object != state && off + n <= dst.Length
      modifies this, state, buf, dst
      ensures Valid() && seeded && inDestructor == old(inDestructor)
      ensures Abstract() == Seeded(old(seed), old(pos) + n, old(seedTime), old(seedPid))
      ensures forall j :: off <= j < off + n ==> dst[j] == KeyByte(seed, old(pos) + (j - off))
      ensures forall i :: 0 <= i < off || off + n <= i < dst.Length ==> dst[i] == old(dst[i])
    {
      hide KeyByte, Advance;
      var done := 0;
      while done < n
        invariant 0 <= done <= n
        invariant Valid() && seeded && inDestructor == old(inDestructor)
        invariant seed == old(seed) && pos == old(pos) + done
        invariant seedTime == old(seedTime) && seedPid == old(seedPid)
        invariant forall j :: off <= j < off + done ==> dst[j] == KeyByte(seed, old(pos) + (j - off))
        invariant forall i :: 0 <= i < off || off + n <= i < dst.Length ==> dst[i] == old(dst[i])
      {
        if bufPos == 64 {
          Refill();
        }
        var avail := 64 - bufPos;
        var chunk := if n - done < avail then n - done else avail;
        CopyOut(dst, off + done, chunk);
        Consume(chunk);
        done := done + chunk;
      }
    }

    method DrawAsStream(dst: array<byte>, off: nat, n: nat)
      requires Valid() && seeded
      requires dst != buf && dst as object != state && off + n <= dst.Length
      modifies this, state, buf, dst
      ensures Valid() && seeded && inDestructor == old(inDestructor)
      ensures Abstract() == Seeded(old(seed), old(pos) + n, old(seedTime), old(seedPid))
      ensures dst[off..off + n] == Stream(seed, old(pos), n)
      ensures forall i :: 0 <= i < off || off + n <= i < dst.Length ==> dst[i] == old(dst[i])
    {
      hide KeyByte, Advance;
      ghost var from := pos;
      Draw(dst, off, n);
      assert dst[off..off + n] == Stream(seed, from, n);
    }

    /** `chronoid_random_bytes`. */
    method RandomBytes(dst: array<byte>, off: nat, n: nat, env: Env) returns (ok: bool)
      requires Valid() && env.entropy.Valid()
      requires dst != buf && dst as object != state && off + n <= dst.Length
      modifies this, state, buf, dst
      ensures Valid() && inDestructor == old(inDestructor)
      ensures inDestructor ==> !ok && Abstract() == old(Abstract())
      ensures !inDestructor ==>
        var r := Request(old(Abstract()), env, n);
        ok == r.ok && Abstract() == r.view && (ok ==> dst[off..off + n] == r.output)
      ensures forall i :: 0 <= i < off || off + n <= i < dst.Length ==> dst[i] == old(dst[i])
      ensures !ok ==> dst[..] == old(dst[..])
      ensures ok ==> bytesEmitted < 0x10_0000 + n
      // which stream a success reads, and from where
      ensures var reseed := ShouldReseed(old(Abstract()), env);
        && (ok <==> !old(inDestructor) && !(reseed && env.entropy.Failed?))
        && (ok ==> seed == (if reseed then SeedState(env.entropy.kn) else old(seed)))
        && (ok ==> pos == (if reseed then n else old(pos) + n))
        && (ok ==> seedTime == (if reseed then env.seedNow else old(seedTime)))
        && (ok ==> seedPid == (if reseed then env.seedPid else old(seedPid)))
      ensures ok ==> seeded && pos >= n && dst[off..off + n] == Stream(seed, pos - n, n)
    {
      hide KeyByte, Advance, SeedState, Stream, OnStream;
      if inDestructor {
        return false;
      }
      var reseed := ShouldReseedNow(env);
      if reseed {
        var s := Seed(env);
        if !s {
          return false;
        }
      }
      ghost var from := pos;
      DrawAsStream(dst, off, n);
      EmittedBelow(from, n);
      return true;
    }

    /** `chronoid_random_force_reseed`. */
    method ForceReseed()
      requires Valid()
      modifies this`seeded
      ensures Valid() && Abstract() == Unseeded
    {
      seeded := false;
    }

    /** `chronoid_random_thread_state_wipe`. */
    method ThreadStateWipe()
      requires Valid()
      modifies this, state, buf
      ensures Valid() && Abstract() == Unseeded && !inDestructor
      ensures state[..] == seq(16, _ => 0) && buf[..] == seq(64, _ => 0)
      ensures bufPos == 0 && bytesEmitted == 0 && seedTime == 0 && seedPid == 0
    {
      inDestructor := true;
      forall i | 0 <= i < 16 {
        state[i] := 0;
      }
      forall i | 0 <= i < 64 {
        buf[i] := 0;
      }
      bufPos, bytesEmitted, seedTime, seedPid, seeded := 0, 0, 0, 0, false;
      inDestructor := false;
    }
  }

  lemma {:induction false} ModAtMost(x: nat)
    ensures x % 0x1_0000_0000_0000_0000 <= x
  {
  }

  lemma {:induction false} Wrap(x: nat, y: nat)
    ensures (x % 0x1_0000_0000_0000_0000 + y) % 0x1_0000_0000_0000_0000 == (x + y) % 0x1_0000_0000_0000_0000
  {
  }

  /** Two generators at the same place of the same keystream hold the same bytes. */
  lemma {:induction false} ViewDeterminesState(r: TlsRng, t: TlsRng)
    requires r.Valid() && t.Valid() && r.seeded && r.Abstract() == t.Abstract()
    ensures r.state[..] == t.state[..] && r.buf[..] == t.buf[..]
    ensures r.bufPos == t.bufPos && r.bytesEmitted == t.bytesEmitted
  {
    hide KeyByte, Advance;
    assert t.seeded;
    assert r.blocks == t.blocks;
    assert forall i :: 0 <= i < 64 ==> r.buf[i] == t.buf[i];
  }

  // ---- whole runs ----

  datatype Event = Draw(env: Env, n: nat) | ForceReseed | Wipe

  /** The generator together with every byte it handed out since its last seed. */
  datatype History = History(view: View, sinceSeed: seq<byte>)

  ghost predicate GoodEvents(events: seq<Event>) {
    forall i :: 0 <= i < |events| && events[i].Draw? ==> events[i].env.entropy.Valid()
  }

  function After(h: History, e: Event): History
    requires e.Draw? ==> e.env.entropy.Valid()
  {
    match e
    case Draw(env, n) =>
      var r := Request(h.view, env, n);
      if !r.ok then h
      else if ShouldReseed(h.view, env) then History(r.view, r.output)
      else History(r.view, h.sinceSeed + r.output)
    case ForceReseed => History(Unseeded, [])
    case Wipe => History(Unseeded, [])
  }

  function Run(events: seq<Event>): History
    requires GoodEvents(events)
  {
    if events == [] then History(Unseeded, [])
    else After(Run(events[..|events| - 1]), events[|events| - 1])
  }

  /** Over every run the bytes handed out since the last seed are the first bytes of its keystream,
      none skipped and none repeated. */
  lemma {:induction false} RunIsKeystream(events: seq<Event>)
    requires GoodEvents(events)
    ensures var h := Run(events);
      h.view.Seeded? ==> h.sinceSeed == Stream(h.view.seed, 0, h.view.pos)
  {
    hide KeyByte, SeedState;
    if events != [] {
      var h := Run(events[..|events| - 1]);
      RunIsKeystream(events[..|events| - 1]);
      var e := events[|events| - 1];
      if e.Draw? && h.view.Seeded? {
        StreamConcat(h.view.seed, 0, h.view.pos, e.n);
      }
    }
  }

  // ---- where a stream comes from ----

  datatype Source = NoSource | From(env: Env)

  /** What the platform answered to the last call that had to seed and was given entropy. */
  function LastSeeding(events: seq<Event>): Source
    requires GoodEvents(events)
  {
    if events == [] then NoSource
    else
      var before, e := events[..|events| - 1], events[|events| - 1];
      if e.Draw? && e.env.entropy.Bytes? && ShouldReseed(Run(before).view, e.env) then From(e.env)
      else LastSeeding(before)
  }

  /** The state of the stream is, in bytes, the standard's constant, the 32 key bytes that `env` supplied, a
      zero counter and the 12 nonce bytes; its time and process are those of the seeding. */
  ghost predicate SeededBy(v: View, env: Env) {
    && v.Seeded? && env.entropy.Bytes? && |env.entropy.kn| == 44
    && Serialize(v.seed) == ConstantBytes() + env.entropy.kn[..32] + [0, 0, 0, 0] + env.entropy.kn[32..]
    && v.time == env.seedNow && v.pid == env.seedPid
  }

  /** Over every run the stream in use is the one that the last seeding's entropy determines. */
  lemma {:induction false} StreamIsFromEntropy(events: seq<Event>)
    requires GoodEvents(events)
    ensures var v, source := Run(events).view, LastSeeding(events);
      v.Seeded? ==> source.From? && SeededBy(v, source.env)
  {
    hide SeedState, Stream, ShouldReseed, SeededBy;
    if events != [] {
      var before, e := events[..|events| - 1], events[|events| - 1];
      StreamIsFromEntropy(before);
      var h := Run(before);
      if e.Draw? && e.env.entropy.Bytes? && ShouldReseed(h.view, e.env) {
        NewStream(h.view, e.env, e.n);
      } else if e.Draw? && !ShouldReseed(h.view, e.env) {
        KeptIsSeeded(h.view, e.env);
        SameStream(h.view, e.env, e.n, LastSeeding(before).env);
      }
    }
  }

  lemma {:induction false} NewStream(v: View, env: Env, n: nat)
    requires env.entropy.Valid() && env.entropy.Bytes? && ShouldReseed(v, env)
    ensures Request(v, env, n).ok && SeededBy(Request(v, env, n).view, env)
  {
    hide SeedState, Stream, ShouldReseed, Serialize, ConstantBytes;
    SeedLayout(env.entropy.kn);
  }

  lemma {:induction false} KeptIsSeeded(v: View, env: Env)
    requires !ShouldReseed(v, env)
    ensures v.Seeded?
  {
  }

  lemma {:induction false} SameStream(v: View, env: Env, n: nat, source: Env)
    requires env.entropy.Valid() && !ShouldReseed(v, env)
    requires SeededBy(v, source)
    ensures SeededBy(Request(v, env, n).view, source)
  {
    hide SeedState, Stream, Serialize, ConstantBytes;
  }

  /** When a call keeps the stream it was given: the stream belongs to the calling process, was seeded at
      most an hour ago by a clock that has not gone back, and less than 1 MiB (modulo 2^64) of it is gone. */
  lemma {:induction false} StreamIsFresh(v: View, env: Env, n: nat)
    requires env.entropy.Valid()
    ensures var w, kept := Request(v, env, n).view,
        v.Seeded? && env.pid == v.pid && 0 <= env.now - v.time < 3600 && v.pos % 0x1_0000_0000_0000_0000 < 0x10_0000;
      && (kept ==> w == Seeded(v.seed, v.pos + n, v.time, v.pid))
      && (!kept && env.entropy.Bytes? ==> w == Seeded(SeedState(env.entropy.kn), n, env.seedNow, env.seedPid))
      && (Request(v, env, n).ok <==> kept || env.entropy.Bytes?)
      && (!Request(v, env, n).ok ==> w == v)
  {
    hide SeedState, Stream;
  }

  /** The blocks of a seed one after the other, each from the state the previous one left. */
  function Blocks(seed: State, n: nat): (s: seq<byte>)
    ensures |s| == 64 * n
  {
    if n == 0 then [] else Blocks(seed, n - 1) + BlockBytes(Bumps(seed, n - 1))
  }

  lemma {:induction false} OneBlock(seed: State, k: nat)
    ensures Stream(seed, 64 * k, 64) == BlockBytes(Advance(seed, k))
  {
    hide BlockBytes, Advance;
    var s := Stream(seed, 64 * k, 64);
    forall i | 0 <= i < |s|
      ensures s[i] == BlockBytes(Advance(seed, k))[i]
    {
      assert (64 * k + i) / 64 == k && (64 * k + i) % 64 == i;
      assert s[i] == KeyByte(seed, 64 * k + i);
    }
  }

  /** The keystream is block(0) || block(1) || ... */
  lemma {:induction false} StreamIsBlocks(seed: State, n: nat)
    ensures Stream(seed, 0, 64 * n) == Blocks(seed, n)
  {
    hide BlockBytes, Advance, Bumps;
    if n > 0 {
      StreamIsBlocks(seed, n - 1);
      BumpsAreAdvance(seed, n - 1);
      StreamConcat(seed, 0, 64 * (n - 1), 64);
      OneBlock(seed, n - 1);
    }
  }

  // ---- partitions of a request ----

  /** No call of the list reseeds when they are made one after the other. */
  predicate Quiet(v: View, calls: seq<(Env, nat)>)
    decreases |calls|
  {
    v.Seeded? && (calls != [] ==>
      !ShouldReseed(v, calls[0].0) && Quiet(v.(pos := v.pos + calls[0].1), calls[1..]))
  }

  function Total(calls: seq<(Env, nat)>): nat {
    if calls == [] then 0 else calls[0].1 + Total(calls[1..])
  }

  ghost predicate GoodCalls(calls: seq<(Env, nat)>) {
    forall i :: 0 <= i < |calls| ==> calls[i].0.entropy.Valid()
  }

  /** Make the calls one after the other and join their outputs. */
  function Join(v: View, calls: seq<(Env, nat)>): Reply
    requires GoodCalls(calls)
    decreases |calls|
  {
    if calls == [] then Reply(true, [], v)
    else
      var first := Request(v, calls[0].0, calls[0].1);
      if !first.ok then first
      else
        var rest := Join(first.view, calls[1..]);
        Reply(rest.ok, first.output + rest.output, rest.view)
  }

  /** As long as no reseed fires, any partition of a request gives the bytes and the final state of
      the single request. */
  lemma {:induction false} SplitLaw(v: View, calls: seq<(Env, nat)>, env: Env)
    requires GoodCalls(calls) && env.entropy.Valid()
    requires Quiet(v, calls) && !ShouldReseed(v, env)
    ensures Join(v, calls) == Request(v, env, Total(calls))
  {
    JoinIsStream(v, calls);
  }

  lemma {:induction false} JoinIsStream(v: View, calls: seq<(Env, nat)>)
    requires GoodCalls(calls) && Quiet(v, calls)
    ensures Join(v, calls) == Reply(true, Stream(v.seed, v.pos, Total(calls)), v.(pos := v.pos + Total(calls)))
    decreases |calls|
  {
    hide KeyByte, SeedState, ShouldReseed;
    if calls != [] {
      var n := calls[0].1;
      JoinIsStream(v.(pos := v.pos + n), calls[1..]);
      StreamConcat(v.seed, v.pos, n, Total(calls[1..]));
    }
  }

  // ---- where the code and its comments part ----

  /** A failed clock (-1) is documented to force a reseed.  It does so exactly when the clock worked
      at seed time, or the stored time lies an hour or more before 1970; a clock that had already
      failed at seed time stored -1 and keeps the old stream. */
  lemma {:induction false} FailedClockReseeds(v: View, env: Env)
    requires v.Seeded? && env.now == -1 && env.pid == v.pid
    requires v.pos % 0x1_0000_0000_0000_0000 < RESEED_BYTES
    ensures ShouldReseed(v, env) <==> v.time >= 0 || v.time <= -3601
  {
  }

  lemma {:induction false} FailedClockTwice(env: Env, later: Env, n: nat)
    requires env.entropy.Bytes? && env.entropy.Valid() && env.seedNow == -1 && n < RESEED_BYTES
    requires later.now == -1 && later.pid == env.seedPid
    ensures !ShouldReseed(Request(Unseeded, env, n).view, later)
  {
    hide KeyByte, SeedState;
  }

  /** The byte budget is consulted only on entry: one request can overshoot it by its whole length. */
  lemma {:induction false} BudgetIsPerCall(v: View, env: Env, n: nat)
    requires env.entropy.Valid() && v.Seeded? && !ShouldReseed(v, env)
    ensures var w := Request(v, env, n).view;
      && w.pos == v.pos + n
      && w.pos % 0x1_0000_0000_0000_0000 < RESEED_BYTES + n
      && (v.pos < RESEED_BYTES ==> (w.pos > RESEED_BYTES <==> n > RESEED_BYTES - v.pos))
  {
    hide KeyByte;
    Wrap(v.pos, n);
    ModAtMost(v.pos % 0x1_0000_0000_0000_0000 + n);
  }

  // ---- the carry of the block counter into the nonce ----

  /** The blocks generated when `pos` bytes of the stream are gone: the last one may be half used. */
  function BlocksAt(pos: nat): nat { (pos + 63) / 64 }

  function StateAt(v: View): State
    requires v.Seeded?
  {
    Advance(v.seed, BlocksAt(v.pos))
  }

  lemma {:induction false} StateOfView(r: TlsRng)
    requires r.Valid() && r.seeded
    ensures r.state[..] == StateAt(r.Abstract())
  {
    hide KeyByte, Advance;
    assert BlocksAt(r.pos) == r.blocks by {
      assert r.pos + 63 == 64 * r.blocks + (r.bufPos - 1);
    }
  }

  /** In a seeded generator the nonce word differs from
      its seeded value exactly when the blocks since the seed are 2^32 or more modulo 2^64. */
  lemma {:induction false} CarryIntoNonce(r: TlsRng, kn: seq<byte>)
    requires |kn| == 44 && r.Valid() && r.seeded && r.seed == SeedState(kn)
    ensures r.state[12] == BlocksAt(r.pos) % 0x1_0000_0000
    ensures r.state[13] != r.seed[13] <==>
      BlocksAt(r.pos) % 0x1_0000_0000_0000_0000 >= 0x1_0000_0000
  {
    hide SeedState, Advance;
    StateOfView(r);
    assert r.state[12] == r.state[..][12] && r.state[13] == r.state[..][13];
    CarryAfter(kn, BlocksAt(r.pos));
  }

  /** A comment says the counter never gets near 2^32.  One request of `n` bytes, from a generator that
      passed the entry check, takes it there exactly when `n` exceeds 2^38 - 64 less what was drawn before. */
  lemma {:induction false} RequestCarries(kn: seq<byte>, v: View, env: Env, n: nat)
    requires |kn| == 44 && v.Seeded? && v.seed == SeedState(kn)
    requires env.entropy.Valid() && !ShouldReseed(v, env)
    requires v.pos < RESEED_BYTES && n < 0x1_0000_0000_0000_0000
    ensures var w := Request(v, env, n).view;
      StateAt(w)[13] != w.seed[13] <==> n > 0x40_0000_0000 - 64 - v.pos
  {
    hide SeedState, Advance, KeyByte;
    CarryAfter(kn, BlocksAt(v.pos + n));
    SmallBlocks(v.pos + n);
  }

  lemma {:induction false} SmallBlocks(pos: nat)
    requires pos < 0x1_0000_0000_0000_0000 + RESEED_BYTES
    ensures BlocksAt(pos) % 0x1_0000_0000_0000_0000 == BlocksAt(pos)
    ensures BlocksAt(pos) >= 0x1_0000_0000 <==> pos > 0x40_0000_0000 - 64
  {
  }

  /** The first request after a seed does it with 2^38 bytes. */
  lemma {:induction false} CarryIsReachable(env: Env)
    requires env.entropy.Bytes? && env.entropy.Valid()
    ensures var r := Request(Unseeded, env, 0x40_0000_0000);
      r.ok && StateAt(r.view)[12] == 0 && StateAt(r.view)[13] != r.view.seed[13]
  {
    hide SeedState, Advance, KeyByte;
    CarryAfter(env.entropy.kn, 0x1_0000_0000);
    assert BlocksAt(0x40_0000_0000) == 0x1_0000_0000;
  }

  lemma {:induction false} CarryAfter(kn: seq<byte>, k: nat)
    requires |kn| == 44
    ensures var s := SeedState(kn);
      && Advance(s, k)[12] == k % 0x1_0000_0000
      && (Advance(s, k)[13] != s[13] <==> k % 0x1_0000_0000_0000_0000 >= 0x1_0000_0000)
  {
    hide LittleEndianWord;
    var s := SeedState(kn);
    assert s[12] == 0;
    var j := k % 0x1_0000_0000_0000_0000;
    NonceStep(s[13], j);
    Wrap(k, s[13] as int * 0x1_0000_0000);
    LowWord(k);
  }

  lemma {:induction false} LowWord(k: nat)
    ensures k % 0x1_0000_0000_0000_0000 % 0x1_0000_0000 == k % 0x1_0000_0000
  {
  }

  lemma {:induction false} NonceStep(x: u32, k: nat)
    requires k < 0x1_0000_0000_0000_0000
    ensures var pair := (k + x as int * 0x1_0000_0000) % 0x1_0000_0000_0000_0000;
      && pair % 0x1_0000_0000 == k % 0x1_0000_0000
      && (pair / 0x1_0000_0000 != x <==> k >= 0x1_0000_0000)
  {
    var q, r := k / 0x1_0000_0000, k % 0x1_0000_0000;
    var pair := (x as int + q) % 0x1_0000_0000 * 0x1_0000_0000 + r;
    var sum := k + x as int * 0x1_0000_0000;
    assert sum == (x as int + q) * 0x1_0000_0000 + r;
    assert sum - pair == (x as int + q) / 0x1_0000_0000 * 0x1_0000_0000_0000_0000;
    assert 0 <= pair < 0x1_0000_0000_0000_0000;
    assert sum % 0x1_0000_0000_0000_0000 == pair;
  }
}
