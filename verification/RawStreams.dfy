/** Byte strings, and the abstract raw stream below every buffered class of Lib/_pyio.py. */
module RawStreams {
  import opened Basics

  type Byte = x: int | 0 <= x < 256

  const DEFAULT_BUFFER_SIZE := 8192

  function Zeros(n: nat): (z: seq<Byte>)
    ensures |z| == n && forall i :: 0 <= i < n ==> z[i] == 0
  {
    seq(n, _ => 0)
  }

  /** The content, filled up with zero bytes to reach `pos`. */
  function Padded(content: seq<Byte>, pos: nat): (r: seq<Byte>)
    ensures |r| >= pos
  {
    if pos > |content| then content + Zeros(pos - |content|) else content
  }

  /** `data` put over what is there from `pos` on. */
  function Put(base: seq<Byte>, pos: nat, data: seq<Byte>): (r: seq<Byte>)
    requires pos <= |base|
    ensures |r| >= pos + |data|
  {
    base[..pos] + data + (if pos + |data| < |base| then base[pos + |data|..] else [])
  }

  lemma Regroup(a: seq<Byte>, b: seq<Byte>, c: seq<Byte>)
    ensures (a + b) + c == a + (b + c)
  {
  }

  /** What a file holds after `data` is written at `pos`: a gap past the old end is filled
      with zero bytes, and writing nothing changes nothing. */
  function Overlay(content: seq<Byte>, pos: nat, data: seq<Byte>): seq<Byte>
  {
    if data == [] then content else Put(Padded(content, pos), pos, data)
  }

  lemma PutAt(base: seq<Byte>, pos: nat, data: seq<Byte>, i: nat)
    requires pos <= |base| && i < |Put(base, pos, data)|
    ensures |Put(base, pos, data)| == if |base| < pos + |data| then pos + |data| else |base|
    ensures Put(base, pos, data)[i] == if i < pos then base[i] else if i < pos + |data| then data[i - pos] else base[i]
  {
  }

  /** The file after a write, byte by byte: the data from `pos` on, zero bytes in a gap before it, and
      the old bytes everywhere else. */
  lemma OverlayAt(content: seq<Byte>, pos: nat, data: seq<Byte>, i: nat)
    requires data != []
    ensures var r := Overlay(content, pos, data);
            && |r| == Max(|content|, pos + |data|)
            && (i < |r| ==> r[i] == if pos <= i < pos + |data| then data[i - pos]
                                    else if i < |content| then content[i] else 0)
  {
    var base := Padded(content, pos);
    PutLength(base, pos, data);
    if i < |Put(base, pos, data)| {
      PutAt(base, pos, data, i);
    }
  }

  lemma PutSplit(base: seq<Byte>, pos: nat, a: seq<Byte>, b: seq<Byte>)
    requires pos <= |base|
    ensures Put(Put(base, pos, a), pos + |a|, b) == Put(base, pos, a + b)
  {
    hide Put;
    var one := Put(base, pos, a);
    var two, both := Put(one, pos + |a|, b), Put(base, pos, a + b);
    PutLength(base, pos, a);
    PutLength(one, pos + |a|, b);
    PutLength(base, pos, a + b);
    forall i | 0 <= i < |two| ensures two[i] == both[i] {
      PutAt(one, pos + |a|, b, i);
      PutAt(base, pos, a + b, i);
      if i < |one| {
        PutAt(base, pos, a, i);
      }
    }
  }

  lemma PutLength(base: seq<Byte>, pos: nat, data: seq<Byte>)
    requires pos <= |base|
    ensures |Put(base, pos, data)| == if |base| < pos + |data| then pos + |data| else |base|
  {
  }

  /** Writing in two pieces, one behind the other, is writing once. */
  lemma OverlaySplit(content: seq<Byte>, pos: nat, a: seq<Byte>, b: seq<Byte>)
    ensures Overlay(Overlay(content, pos, a), pos + |a|, b) == Overlay(content, pos, a + b)
  {
    hide Put;
    if a == [] {
      assert a + b == b;
    } else if b == [] {
      assert a + b == a;
    } else {
      PutSplit(Padded(content, pos), pos, a, b);
    }
  }

  lemma OverlayNothing(content: seq<Byte>, pos: nat)
    ensures Overlay(content, pos, []) == content
  {
  }

  /** Bytes from `pos` to the end; nothing when `pos` lies past the end. */
  function From(content: seq<Byte>, pos: int): seq<Byte>
    requires 0 <= pos
  {
    if pos <= |content| then content[pos..] else []
  }

  /** What a read of `size` returns when `rest` is all there is; a negative size is no limit. */
  function UpTo(size: int, rest: seq<Byte>): seq<Byte>
  {
    if size < 0 then rest else rest[..Min(size, |rest|)]
  }

  /** What a read gives, byte by byte. */
  lemma ReadAt(content: seq<Byte>, pos: nat, size: int, i: nat)
    ensures var left := Max(0, |content| - pos);
            var r := UpTo(size, From(content, pos));
            && |r| == (if size < 0 then left else Min(size, left))
            && (i < |r| ==> r[i] == content[pos + i])
  {
  }

  lemma FromFrom(content: seq<Byte>, pos: nat, k: nat)
    requires k <= |From(content, pos)|
    ensures From(content, pos + k) == From(content, pos)[k..]
  {
  }

  /** How the device answers one call. `Short(n)` caps the transfer at `n` bytes (a read
      still moves at least one byte unless at end of file; a write may take none),
      `Block` is the non-blocking "not now", and `Bogus(n)` is a write count out of range. */
  datatype Reply = Block | Short(n: nat) | Bogus(count: int)

  /** The calls that used up the answers from `before` to `after`, and counted refusals from `b` to
      `c`, made no call after a refusal. */
  ghost predicate Asked(before: seq<Reply>, b: nat, after: seq<Reply>, c: nat)
  {
    && |after| <= |before| && before[|before| - |after|..] == after
    && (forall i :: 0 <= i < |before| - |after| - 1 ==> !before[i].Block?)
    && c == b + if |after| < |before| && before[|before| - |after| - 1].Block? then 1 else 0
  }

  lemma NothingAsked(before: seq<Reply>, b: nat)
    ensures Asked(before, b, before, b)
  {
  }

  lemma AskedOnce(before: seq<Reply>, b: nat)
    ensures Asked(before, b, if before == [] then [] else before[1..],
                  b + if before != [] && before[0].Block? then 1 else 0)
  {
  }

  lemma AskedMore(before: seq<Reply>, b: nat, mid: seq<Reply>, after: seq<Reply>, c: nat)
    requires Asked(before, b, mid, b) && Asked(mid, b, after, c)
    ensures Asked(before, b, after, c)
  {
    var k, n := |before| - |mid|, |before| - |after|;
    assert before[n..] == before[k..][n - k..];
    forall i | 0 <= i < n ensures before[i].Block? ==> i == n - 1 && i >= k && mid[i - k].Block? {
      if i >= k {
        assert before[i] == before[k..][i - k];
      }
    }
    assert k < n ==> before[n - 1] == before[k..][n - 1 - k];
  }

  /** How many bytes a read of `size` moves when `avail` bytes are left. */
  function Granted(replies: seq<Reply>, size: nat, avail: nat): (k: nat)
    ensures k <= size && k <= avail
    ensures size > 0 && avail > 0 ==> k > 0
  {
    var most := Min(size, avail);
    if replies != [] && replies[0].Short? then
      if most == 0 then 0 else Max(1, Min(replies[0].n, most))
    else most
  }

  /** The count a write of `len` bytes reports. */
  function Reported(replies: seq<Reply>, len: nat): int
  {
    if replies == [] then len
    else match replies[0]
      case Short(n) => Min(n, len)
      case Bogus(count) => count
      case Block => 0
  }

  /** A seekable raw stream. `replies` scripts the next answers of the device; every finite
      behaviour has a script, and past its end the device does all it is asked. */
  class RawStream {
    var content: seq<Byte>
    var pos: nat
    var replies: seq<Reply>
    const hasReadall: bool
    ghost var readCalls: nat             // read calls so far
    ghost var blocks: nat            // "would block" answers so far
    ghost var taken: seq<Byte>       // bytes accepted by writes with a valid count

    constructor (content: seq<Byte>, replies: seq<Reply>, hasReadall: bool)
      ensures this.content == content && pos == 0 && this.replies == replies
      ensures this.hasReadall == hasReadall && readCalls == 0 && blocks == 0 && taken == []
    {
      this.content, pos, this.replies, this.hasReadall := content, 0, replies, hasReadall;
      readCalls, blocks, taken := 0, 0, [];
    }

    predicate Polite()
      reads this
    {
      forall i :: 0 <= i < |replies| ==> replies[i].Short?
    }

    /** Every count the device will report is in range. */
    predicate Honest()
      reads this
    {
      forall i :: 0 <= i < |replies| ==> !replies[i].Bogus?
    }

    function Remaining(): seq<Byte>
      reads this
    {
      From(content, pos)
    }

    /** The next answer is a refusal. */
    predicate Refuses()
      reads this
    {
      replies != [] && replies[0].Block?
    }

    method NextReply()
      modifies this`replies
      ensures replies == if old(replies) == [] then [] else old(replies)[1..]
      ensures old(Polite()) ==> Polite()
      ensures old(Honest()) ==> Honest()
    {
      if replies != [] { replies := replies[1..]; }
    }

    /** raw.read(size) for a positive size. */
    method Read(size: int) returns (r: Option<seq<Byte>>)
      requires size > 0
      modifies this
      ensures content == old(content) && taken == old(taken) && readCalls == old(readCalls) + 1
      ensures replies == if old(replies) == [] then [] else old(replies)[1..]
      ensures old(Polite()) ==> Polite() && r.Some?
      ensures r.None? <==> old(Refuses())
      ensures r.None? ==> pos == old(pos) && blocks == old(blocks) + 1
      ensures r.Some? ==> blocks == old(blocks)
      ensures Asked(old(replies), old(blocks), replies, blocks)
      ensures r.Some? ==> var k := old(Granted(replies, size, |Remaining()|));
                r.value == old(Remaining())[..k] && pos == old(pos) + k
                && Remaining() == old(Remaining())[k..]
    {
      hide Asked;
      AskedOnce(replies, blocks);
      readCalls := readCalls + 1;
      if replies != [] && replies[0].Block? {
        blocks := blocks + 1;
        r := None;
      } else {
        var k := Granted(replies, size, |Remaining()|);
        r := Some(Remaining()[..k]);
        FromFrom(content, pos, k);
        pos := pos + k;
      }
      NextReply();
    }

    /** raw.readall(), or raw.read() on an object without readall: all that comes before end
        of file or a refusal, in the second case possibly less. */
    method ReadAll() returns (r: Option<seq<Byte>>)
      modifies this
      ensures content == old(content) && taken == old(taken)
      ensures old(Polite()) ==> Polite() && r.Some?
      ensures blocks >= old(blocks) && (old(Polite()) ==> blocks == old(blocks))
      ensures r.None? ==> pos == old(pos) && blocks > old(blocks)
      ensures r.Some? ==> r.value <= old(Remaining()) && pos == old(pos) + |r.value|
                          && Remaining() == old(Remaining())[|r.value|..]
      ensures r == Some([]) ==> old(Remaining()) == []
      ensures r.Some? && hasReadall ==> r.value == old(Remaining()) || blocks > old(blocks)
      // None exactly if the first answer is a refusal, and nothing is asked after a refusal
      ensures r.None? <==> old(Refuses())
      ensures Asked(old(replies), old(blocks), replies, blocks) && (r.Some? && !hasReadall ==> blocks == old(blocks))
    {
      hide From, Granted, Asked;
      NothingAsked(replies, blocks);
      if !hasReadall {
        r := Read(|Remaining()| + 1);
        return;
      }
      var res: seq<Byte> := [];
      while true
        invariant content == old(content) && taken == old(taken)
        invariant old(Polite()) ==> Polite()
        invariant old(Remaining()) == res + Remaining() && pos == old(pos) + |res|
        invariant Asked(old(replies), old(blocks), replies, old(blocks)) && blocks == old(blocks)
        invariant if res == [] then replies == old(replies) else !old(Refuses())
        decreases |Remaining()|
      {
        ghost var mid, rest := replies, Remaining();
        var data := Read(DEFAULT_BUFFER_SIZE);
        AskedMore(old(replies), old(blocks), mid, replies, blocks);
        if data.None? || data.value == [] {
          r := if res != [] then Some(res) else data;
          return;
        }
        assert rest == data.value + Remaining();
        Regroup(res, data.value, Remaining());
        res := res + data.value;
      }
    }

    /** raw.write(b) for a non-empty `b`. */
    method Write(b: seq<Byte>) returns (n: Option<int>)
      requires b != []
      modifies this
      ensures replies == if old(replies) == [] then [] else old(replies)[1..]
      ensures readCalls == old(readCalls)
      ensures old(Polite()) ==> Polite() && n.Some? && 0 <= n.value <= |b|
      ensures old(Honest()) ==> Honest() && (n.Some? ==> 0 <= n.value <= |b|)
      ensures n.None? <==> old(replies != [] && replies[0].Block?)
      ensures n.None? ==> blocks == old(blocks) + 1
      ensures n.Some? ==> blocks == old(blocks) && n.value == old(Reported(replies, |b|))
      ensures if n.Some? && 0 <= n.value <= |b| then
                content == Overlay(old(content), old(pos), b[..n.value])
                && pos == old(pos) + n.value && taken == old(taken) + b[..n.value]
              else
                content == old(content) && pos == old(pos) && taken == old(taken)
    {
      if replies != [] && replies[0].Block? {
        blocks := blocks + 1;
        n := None;
      } else {
        var k := Reported(replies, |b|);
        n := Some(k);
        if 0 <= k <= |b| {
          content, pos := Overlay(content, pos, b[..k]), pos + k;
          taken := taken + b[..k];
        }
      }
      NextReply();
    }

    /** raw.seek(offset, whence); None is the OSError of a negative target. */
    method Seek(offset: int, whence: int) returns (r: Option<nat>)
      requires 0 <= whence <= 2
      modifies this`pos
      ensures var target := offset + (if whence == 0 then 0 else if whence == 1 then old(pos) else |content|);
              if target >= 0 then r == Some(target) && pos == target else r == None && pos == old(pos)
    {
      var target := offset + (if whence == 0 then 0 else if whence == 1 then pos else |content|);
      if target >= 0 {
        pos := target;
        r := Some(target);
      } else {
        r := None;
      }
    }
  }
}
