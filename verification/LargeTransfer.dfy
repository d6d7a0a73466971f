/** The partial-write sender: a cyclic buffer written to a socket that may accept any
    part of a write, refuse it, or report no space, over any number of callbacks. */
module LargeTransfer {
  import opened Common

  const TOTAL_TX_BYTES: nat := 2_000_000
  const WRITE_SIZE: nat := 1040

  /** Byte `p` of the stream the receiver is meant to see. */
  function StreamByte(p: nat): nat {
    97 + p % 26
  }

  ghost predicate IsStreamPrefix(bytes: seq<nat>) {
    forall p :: 0 <= p < |bytes| ==> bytes[p] == StreamByte(p)
  }

  /** What a cyclic buffer of `size` bytes holds at stream position `p`. */
  function CyclicByte(p: nat, size: nat): nat
    requires size > 0
  {
    97 + (p % size) % 26
  }

  lemma ModModMultiple(p: nat, k: nat)
    requires k > 0
    ensures (p % (26 * k)) % 26 == p % 26
  {
    var q := p / (26 * k);
    var r := p % (26 * k);
    assert p == (26 * k) * q + r;
    assert (26 * k) * q == 26 * (k * q);
    assert p == 26 * (k * q) + r;
  }

  /** A cyclic buffer repeats the alphabet without a splice exactly when its size is a
      multiple of 26. */
  lemma SeamlessIff(size: nat)
    requires size > 0
    ensures (forall p: nat :: CyclicByte(p, size) == StreamByte(p)) <==> size % 26 == 0
  {
    if size % 26 == 0 {
      var k := size / 26;
      forall p: nat ensures CyclicByte(p, size) == StreamByte(p) {
        ModModMultiple(p, k);
      }
    } else {
      assert CyclicByte(size, size) != StreamByte(size);
    }
  }

  ghost predicate BufferReady(data: seq<nat>) {
    |data| == WRITE_SIZE && forall i :: 0 <= i < WRITE_SIZE ==> data[i] == StreamByte(i)
  }

  /** What the socket does next: the space it reports and, if it is then asked to send,
      how much it takes; a negative number is a refusal. */
  datatype Reply = Reply(available: nat, takes: int)

  /** A reply that ends the callback. */
  predicate Blocks(r: Reply) {
    r.available == 0 || r.takes < 0
  }

  /** A reply that lets bytes through. */
  predicate Opens(r: Reply) {
    r.available > 0 && r.takes > 0
  }

  /** Appending a slice of the buffer at the right offset extends the stream. */
  lemma WriteExtends(data: seq<nat>, bytes: seq<nat>, amount: nat)
    requires BufferReady(data) && IsStreamPrefix(bytes)
    requires |bytes| % WRITE_SIZE + amount <= WRITE_SIZE
    ensures var offset := |bytes| % WRITE_SIZE; IsStreamPrefix(bytes + data[offset..offset + amount])
  {
    var offset := |bytes| % WRITE_SIZE;
    var all := bytes + data[offset..offset + amount];
    forall p | |bytes| <= p < |all| ensures all[p] == StreamByte(p) {
      var i := p - |bytes|;
      assert all[p] == data[offset + i];
      ModModMultiple(|bytes|, 40);
    }
  }

  // ----- the flow as a function of the socket's replies

  /** Bytes accepted after `n` replies, whatever the pattern of callbacks. */
  function Accepted(replies: nat -> Reply, n: nat): (count: nat)
    ensures count <= TOTAL_TX_BYTES
  {
    if n == 0 then 0
    else
      var before := Accepted(replies, n - 1);
      if Blocks(replies(n - 1)) then before
      else before + Min(Min(Min(WRITE_SIZE - before % WRITE_SIZE, TOTAL_TX_BYTES - before),
                            replies(n - 1).available), replies(n - 1).takes)
  }

  /** One reply, from `before` accepted bytes to `after`: a blocking reply changes nothing.
      Another lets through as much as it can: no more than the space it reports and the bytes
      it takes, not beyond the end of the buffer or of the transfer, and up to one of these. */
  ghost predicate GreedyStep(r: Reply, before: nat, after: nat) {
    if r.available == 0 || r.takes < 0 then after == before
    else
      && before <= after <= before + r.available && after <= before + r.takes && after <= TOTAL_TX_BYTES
      && after / WRITE_SIZE <= before / WRITE_SIZE + 1 && (after / WRITE_SIZE > before / WRITE_SIZE ==> after % WRITE_SIZE == 0)
      && (after == before + r.available || after == before + r.takes || after == TOTAL_TX_BYTES ||
          (after % WRITE_SIZE == 0 && after > before))
  }

  lemma BufferEnd(before: nat, amount: nat)
    requires amount <= WRITE_SIZE - before % WRITE_SIZE
    ensures var after := before + amount;
            if amount == WRITE_SIZE - before % WRITE_SIZE
            then after % WRITE_SIZE == 0 && after / WRITE_SIZE == before / WRITE_SIZE + 1
            else after / WRITE_SIZE == before / WRITE_SIZE
  {
  }

  lemma EveryStepIsGreedy(replies: nat -> Reply, n: nat)
    ensures GreedyStep(replies(n), Accepted(replies, n), Accepted(replies, n + 1))
  {
    var before, r := Accepted(replies, n), replies(n);
    if !Blocks(r) {
      var amount := Min(Min(Min(WRITE_SIZE - before % WRITE_SIZE, TOTAL_TX_BYTES - before), r.available), r.takes);
      BufferEnd(before, amount);
    }
  }

  /** Replies among the first `n` that let bytes through. */
  function Openings(replies: nat -> Reply, n: nat): nat {
    if n == 0 then 0 else Openings(replies, n - 1) + (if Opens(replies(n - 1)) then 1 else 0)
  }

  /** Every reply that lets bytes through makes progress, so any socket that lets two
      million replies through receives the whole transfer. */
  lemma {:induction false} EnoughOpeningsComplete(replies: nat -> Reply, n: nat)
    ensures Accepted(replies, n) >= Min(Openings(replies, n), TOTAL_TX_BYTES)
  {
    if n > 0 {
      EnoughOpeningsComplete(replies, n - 1);
    }
  }

  lemma {:induction false} AcceptedGrows(replies: nat -> Reply, k: nat, n: nat)
    requires k <= n
    ensures Accepted(replies, k) <= Accepted(replies, n)
  {
    if k < n {
      AcceptedGrows(replies, k, n - 1);
    }
  }

  // ----- when callbacks end

  /** Blocking replies among the first `n`. */
  function BlockCount(replies: nat -> Reply, n: nat): nat {
    if n == 0 then 0 else BlockCount(replies, n - 1) + (if Blocks(replies(n - 1)) then 1 else 0)
  }

  lemma {:induction false} BlockCountGrows(replies: nat -> Reply, k: nat, n: nat)
    requires k <= n
    ensures BlockCount(replies, k) <= BlockCount(replies, n)
    ensures BlockCount(replies, k) == BlockCount(replies, n) <==> forall i :: k <= i < n ==> !Blocks(replies(i))
  {
    if k < n {
      BlockCountGrows(replies, k, n - 1);
    }
  }

  /** After reply `n`, counted from `k`, there is nothing left to send or `m` callbacks have
      been blocked. */
  ghost predicate EndedBy(replies: nat -> Reply, k: nat, m: nat, n: nat) {
    n >= k && (Accepted(replies, n) == TOTAL_TX_BYTES || BlockCount(replies, n) >= BlockCount(replies, k) + m)
  }

  /** From reply `k` on, `m` callbacks in a row come to an end. */
  ghost predicate Ends(replies: nat -> Reply, k: nat, m: nat) {
    exists n: nat :: EndedBy(replies, k, m, n)
  }

  /** The socket never blocks again, and from some reply on takes nothing although bytes
      are left. */
  ghost predicate Starves(replies: nat -> Reply, k: nat, j: nat) {
    && j >= k && Accepted(replies, j) < TOTAL_TX_BYTES
    && (forall n: nat :: n >= k ==> !Blocks(replies(n)))
    && (forall n: nat :: n >= j ==> !Opens(replies(n)))
  }

  lemma {:induction false} NothingMore(replies: nat -> Reply, j: nat, n: nat)
    requires j <= n && forall i :: j <= i < n ==> !Opens(replies(i))
    ensures Accepted(replies, n) == Accepted(replies, j)
  {
    if j < n {
      NothingMore(replies, j, n - 1);
    }
  }

  lemma StarvesNeverEnds(replies: nat -> Reply, k: nat, j: nat)
    requires Starves(replies, k, j)
    ensures !Ends(replies, k, 1)
    ensures forall n: nat :: n >= k ==> Accepted(replies, n) < TOTAL_TX_BYTES
  {
    forall n: nat ensures !EndedBy(replies, k, 1, n) && (n >= k ==> Accepted(replies, n) < TOTAL_TX_BYTES) {
      if n >= k {
        BlockCountGrows(replies, k, n);
        if n >= j {
          NothingMore(replies, j, n);
        } else {
          AcceptedGrows(replies, n, j);
        }
      }
    }
  }

  /** Bytes can get through only so often: there is a last time. */
  lemma LastOpening(replies: nat -> Reply, k: nat, from: nat) returns (j: nat)
    requires from >= k && forall n: nat :: n >= k ==> Accepted(replies, n) < TOTAL_TX_BYTES
    ensures j >= from && forall n: nat :: n >= j ==> !Opens(replies(n))
    decreases TOTAL_TX_BYTES - Accepted(replies, from)
  {
    if n: nat :| n >= from && Opens(replies(n)) {
      var next := n + 1;
      AcceptedGrows(replies, from, n);
      assert Accepted(replies, n) < TOTAL_TX_BYTES;
      OpeningCounts(replies, n);
      j := LastOpening(replies, k, next);
    } else {
      j := from;
    }
  }

  lemma OpeningCounts(replies: nat -> Reply, n: nat)
    requires Opens(replies(n)) && Accepted(replies, n) < TOTAL_TX_BYTES
    ensures Accepted(replies, n + 1) > Accepted(replies, n)
  {
  }

  lemma NeverEnding(replies: nat -> Reply, k: nat)
    requires !Ends(replies, k, 1)
    ensures forall n: nat :: n >= k ==> Accepted(replies, n) < TOTAL_TX_BYTES && !Blocks(replies(n))
  {
    forall n: nat | n >= k ensures Accepted(replies, n) < TOTAL_TX_BYTES && !Blocks(replies(n)) {
      var next := n + 1;
      assert !EndedBy(replies, k, 1, n) && !EndedBy(replies, k, 1, next);
      BlockCountGrows(replies, k, next);
    }
  }

  /** A callback does not end if and only if the socket starves it: it never blocks again,
      and from some reply on has space but takes nothing, with bytes still to send. */
  lemma EndlessIff(replies: nat -> Reply, k: nat)
    ensures !Ends(replies, k, 1) <==> exists j: nat :: Starves(replies, k, j)
  {
    if j: nat :| Starves(replies, k, j) {
      StarvesNeverEnds(replies, k, j);
    }
    if !Ends(replies, k, 1) {
      NeverEnding(replies, k);
      var j := LastOpening(replies, k, k);
      assert Starves(replies, k, j);
    }
  }

  /** Where a callback ends at the latest. */
  lemma Latest(replies: nat -> Reply, k: nat, m: nat) returns (n: nat)
    requires Ends(replies, k, m)
    ensures EndedBy(replies, k, m, n)
  {
    n :| EndedBy(replies, k, m, n);
  }

  /** With one callback over, one less is still to come. */
  lemma OneLess(replies: nat -> Reply, k: nat, m: nat, next: nat)
    requires Ends(replies, k, m + 1) && next >= k
    requires Accepted(replies, next) == TOTAL_TX_BYTES || BlockCount(replies, next) == BlockCount(replies, k) + 1
    ensures Ends(replies, next, m)
  {
    var n := Latest(replies, k, m + 1);
    if n < next {
      AcceptedGrows(replies, n, next);
      BlockCountGrows(replies, n, next);
      assert EndedBy(replies, next, m, next);
    } else {
      AcceptedGrows(replies, next, n);
      assert EndedBy(replies, next, m, n);
    }
  }

  lemma Fewer(replies: nat -> Reply, k: nat, m: nat)
    requires Ends(replies, k, m) && m >= 1
    ensures Ends(replies, k, 1)
  {
    var n := Latest(replies, k, m);
    assert EndedBy(replies, k, 1, n);
  }

  /** One blocking reply at the end of a stretch, and none before. */
  lemma CountsOne(replies: nat -> Reply, k: nat, next: nat)
    requires k < next && Blocks(replies(next - 1)) && forall i :: k <= i < next - 1 ==> !Blocks(replies(i))
    ensures BlockCount(replies, next) == BlockCount(replies, k) + 1
  {
    BlockCountGrows(replies, k, next - 1);
  }

  // ----- the application

  /** What the counters say about the accepted bytes. */
  ghost predicate Consistent(replies: nat -> Reply, asked: nat, currentTxBytes: nat, accepted: seq<nat>,
                             closes: nat, acceptedAtClose: nat)
  {
    && currentTxBytes == |accepted| == Accepted(replies, asked)
    && IsStreamPrefix(accepted)
    && (closes > 0 ==> acceptedAtClose == |accepted| == TOTAL_TX_BYTES)
  }

  lemma BlockedReply(replies: nat -> Reply, asked: nat)
    requires Blocks(replies(asked))
    ensures Accepted(replies, asked + 1) == Accepted(replies, asked)
  {
  }

  /** The sending application and the socket it writes to. */
  class Flow {
    const data: array<nat>
    const replies: nat -> Reply
    var currentTxBytes: nat
    var asked: nat
    var accepted: seq<nat>
    var closes: nat
    /** Number of bytes accepted at the first close. */
    ghost var acceptedAtClose: nat

    ghost predicate Valid()
      reads this, data
    {
      && data.Length == WRITE_SIZE && BufferReady(data[..])
      && Consistent(replies, asked, currentTxBytes, accepted, closes, acceptedAtClose)
    }

    constructor (replies: nat -> Reply)
      ensures Valid() && fresh(data) && this.replies == replies
      ensures accepted == [] && closes == 0 && asked == 0
    {
      var buffer := new nat[WRITE_SIZE];
      for i := 0 to WRITE_SIZE
        invariant forall j :: 0 <= j < i ==> buffer[j] == StreamByte(j)
      {
        buffer[i] := 97 + i % 26;
      }
      data := buffer;
      this.replies := replies;
      currentTxBytes, asked, accepted, closes, acceptedAtClose := 0, 0, [], 0, 0;
    }

    /** The socket's `Send` of `toWrite` bytes of the buffer from `offset`: it refuses
        with a negative result or accepts at most `toWrite` of them. */
    method Send(offset: nat, toWrite: nat) returns (sent: int)
      requires offset + toWrite <= data.Length && toWrite > 0
      modifies this`asked, this`accepted
      ensures asked == old(asked) + 1
      ensures if replies(old(asked)).takes < 0 then sent < 0 && accepted == old(accepted)
              else sent == Min(replies(old(asked)).takes, toWrite) && accepted == old(accepted) + data[offset..offset + sent]
    {
      var takes := replies(asked).takes;
      asked := asked + 1;
      if takes < 0 {
        return -1;
      }
      sent := Min(takes, toWrite);
      accepted := accepted + data[offset..offset + sent];
    }

    method Close()
      requires Valid() && currentTxBytes == TOTAL_TX_BYTES
      modifies this`closes, this`acceptedAtClose
      ensures Valid() && closes == old(closes) + 1
    {
      if closes == 0 {
        acceptedAtClose := |accepted|;
      }
      closes := closes + 1;
    }

    /** One write of the loop; `false` when the socket refuses. */
    method WriteOnce() returns (ok: bool)
      requires Valid() && currentTxBytes < TOTAL_TX_BYTES && replies(asked).available > 0
      modifies this`currentTxBytes, this`asked, this`accepted
      ensures Valid() && asked == old(asked) + 1
      ensures ok == (replies(old(asked)).takes >= 0)
      ensures old(accepted) <= accepted
      ensures if Opens(replies(old(asked))) then currentTxBytes > old(currentTxBytes) else accepted == old(accepted)
    {
      var left := TOTAL_TX_BYTES - currentTxBytes;
      var dataOffset := currentTxBytes % WRITE_SIZE;
      var toWrite := WRITE_SIZE - dataOffset;
      toWrite := Min(toWrite, left);
      toWrite := Min(toWrite, replies(asked).available);
      var amountSent := Send(dataOffset, toWrite);
      if amountSent < 0 {
        return false;
      }
      WriteExtends(data[..], old(accepted), amountSent);
      assert data[..][dataOffset..dataOffset + amountSent] == data[dataOffset..dataOffset + amountSent];
      currentTxBytes := currentTxBytes + amountSent;
      return true;
    }

    /** The loop of the callback, up to the last byte, a socket without space, or a refusal. */
    method WriteLoop() returns (refused: bool)
      requires Valid() && Ends(replies, asked, 1)
      modifies this`currentTxBytes, this`asked, this`accepted
      ensures Valid() && old(accepted) <= accepted && asked >= old(asked)
      ensures refused ==> asked > old(asked) && |accepted| < TOTAL_TX_BYTES && Blocks(replies(asked - 1))
      ensures !refused ==> |accepted| == TOTAL_TX_BYTES || replies(asked).available == 0
      ensures forall k :: old(asked) <= k < (if refused then asked - 1 else asked) ==> !Blocks(replies(k))
      ensures |old(accepted)| == TOTAL_TX_BYTES ==> !refused && asked == old(asked) && accepted == old(accepted)
    {
      ghost var until := Latest(replies, asked, 1);
      while currentTxBytes < TOTAL_TX_BYTES && replies(asked).available > 0
        invariant until >= asked && EndedBy(replies, old(asked), 1, until)
        invariant Valid() && old(accepted) <= accepted && asked >= old(asked)
        invariant forall k :: old(asked) <= k < asked ==> !Blocks(replies(k))
        invariant |old(accepted)| == TOTAL_TX_BYTES ==> asked == old(asked) && accepted == old(accepted)
        decreases until - asked
      {
        BlockCountGrows(replies, old(asked), asked);
        var ok := WriteOnce();
        if !ok {
          return true;
        }
      }
      return false;
    }

    /** The callback: what has been accepted only grows, and stays a prefix of the
        stream. It ends with a close exactly when everything has been accepted, and
        otherwise only because the socket's last reply blocked it. */
    method WriteUntilBufferFull()
      requires Valid() && Ends(replies, asked, 1)
      modifies this
      ensures Valid() && old(accepted) <= accepted
      ensures closes == old(closes) + (if |accepted| == TOTAL_TX_BYTES then 1 else 0)
      ensures asked >= old(asked)
      ensures |accepted| < TOTAL_TX_BYTES ==> asked > old(asked) && Blocks(replies(asked - 1))
      ensures forall k :: old(asked) <= k < asked - 1 ==> !Blocks(replies(k))
      ensures old(closes) > 0 ==> asked == old(asked) && accepted == old(accepted)
    {
      var refused := WriteLoop();
      if refused {
        return;
      }
      if currentTxBytes >= TOTAL_TX_BYTES {
        Close();
      } else {
        BlockedReply(replies, asked);
        asked := asked + 1;
      }
    }

    /** One callback, after which `more` can follow. */
    method Callback(ghost more: nat)
      requires Valid() && Ends(replies, asked, more + 1) && (closes > 0 ==> |accepted| == TOTAL_TX_BYTES)
      modifies this
      ensures Valid() && Ends(replies, asked, more) && (closes > 0 <==> |accepted| == TOTAL_TX_BYTES)
    {
      Fewer(replies, asked, more + 1);
      ghost var k := asked;
      WriteUntilBufferFull();
      if |accepted| < TOTAL_TX_BYTES {
        CountsOne(replies, k, asked);
      }
      OneLess(replies, k, more, asked);
    }

    /** A whole flow: the first attempt and then any number of further callbacks, on a
        socket on which they all end. At most `TOTAL_TX_BYTES` are ever accepted, they are
        the stream's own bytes in order, and nothing is sent after a close. */
    method StartFlow(callbacks: nat)
      requires Valid() && accepted == [] && closes == 0 && Ends(replies, asked, callbacks + 1)
      modifies this
      ensures Valid() && IsStreamPrefix(accepted)
      ensures closes > 0 <==> |accepted| == TOTAL_TX_BYTES
    {
      Callback(callbacks);
      for i := 0 to callbacks
        invariant Valid() && Ends(replies, asked, callbacks - i) && (closes > 0 <==> |accepted| == TOTAL_TX_BYTES)
      {
        Callback(callbacks - i - 1);
      }
    }
  }
}
