/**
 * One direction of the shared ring, and push and pop as functions on it.
 *
 * An index that lands exactly on the end of the data area stays at |data|; it is not wrapped to 0.
 */
module Ring {
  import opened Bytes
  import opened PipePacket

  datatype Ring = Ring(inIndex: nat, outIndex: nat, data: seq<byte>)
  {
    /** The index rule both ends follow, within the sizes that a C# `int` can express. */
    ghost predicate Valid() {
      0 < |data| < INT32_LIMIT && inIndex <= |data| && outIndex <= |data|
    }

    /** The two results of `GetAvailableSizeInformation`. */
    function ReadSize(): (size: nat)
      requires inIndex <= |data| && outIndex <= |data|
      ensures size <= |data|
    {
      if inIndex >= outIndex then inIndex - outIndex else |data| - (outIndex - inIndex)
    }

    function WriteSize(): (size: nat)
      requires inIndex <= |data| && outIndex <= |data|
    {
      |data| - ReadSize()
    }

    /** The bytes a reader sees, oldest first. */
    function Unread(): (s: seq<byte>)
      requires Valid()
      ensures |s| == ReadSize()
    {
      seq(ReadSize(), i requires 0 <= i < ReadSize() => data[Slot(|data|, outIndex, i)])
    }
  }

  /** Offset in a data area of `n` bytes of the `i`-th byte counted from index `idx`. */
  function Slot(n: nat, idx: nat, i: nat): (offset: nat)
    requires idx <= n && i < n
    ensures offset < n
  {
    if idx + i < n then idx + i else idx + i - n
  }

  /** Distance from index `idx` to offset `j`: the inverse of `Slot`. */
  function Rank(n: nat, idx: nat, j: nat): (i: nat)
    requires idx <= n && j < n
    ensures i < n && Slot(n, idx, i) == j
    ensures forall k :: 0 <= k < n && Slot(n, idx, k) == j ==> k == i
  {
    if j >= idx then j - idx else j + n - idx
  }

  /** Moves an index forward; a move that ends on the end of the area stays there. */
  function Advance(n: nat, idx: nat, k: nat): nat {
    if idx + k <= n then idx + k else idx + k - n
  }

  /** `data` with `bytes` stored from index `idx` on, around the end of the area. */
  function Store(data: seq<byte>, idx: nat, bytes: seq<byte>): (r: seq<byte>)
    requires idx <= |data| && |bytes| <= |data|
    ensures |r| == |data|
    ensures forall i :: 0 <= i < |bytes| ==> r[Slot(|data|, idx, i)] == bytes[i]
    ensures forall i :: |bytes| <= i < |data| ==> r[Slot(|data|, idx, i)] == data[Slot(|data|, idx, i)]
  {
    seq(|data|, j requires 0 <= j < |data| =>
      if Rank(|data|, idx, j) < |bytes| then bytes[Rank(|data|, idx, j)] else data[j])
  }

  datatype PushResult = Pushed | LengthOverflow | InsufficientSpace

  /** `PushPipePacket`. */
  function Push(r: Ring, content: seq<byte>): (Ring, PushResult)
    requires r.Valid()
  {
    if !Encodable(|content|) then
      (r, LengthOverflow)
    else if r.WriteSize() < PacketSize(|content|) then
      (r, InsufficientSpace)
    else
      (Ring(Advance(|r.data|, r.inIndex, PacketSize(|content|)), r.outIndex,
            Store(r.data, r.inIndex, Packet(content, r.inIndex))),
       Pushed)
  }

  datatype PopResult = Returned(content: seq<byte>) | Threw(error: PopError)

  /** `PopPipePacket`; an empty array stands for "nothing to read". */
  function Pop(r: Ring): (Ring, PopResult)
    requires r.Valid()
  {
    if r.ReadSize() < PIPE_PACKET_HEADER_SIZE then
      (r, Returned([]))
    else
      match Parse(r.Unread())
      case Rejected(e) => (r, Threw(e))
      case Accepted(content, size) => (r.(outIndex := Advance(|r.data|, r.outIndex, size)), Returned(content))
  }

  const MAXIMUM_PUSH_SIZE: nat := 16384

  /** C# `%` truncates toward zero. */
  function TruncatedRem(a: int, b: int): int
    requires b > 0
  {
    if a >= 0 then a % b else -((-a) % b)
  }

  /** `GetMaximumPushSize` on a given amount of writable space. */
  function MaximumPushSize(writable: nat): nat {
    var usable := writable - (PIPE_PACKET_HEADER_SIZE + TRAILER_SIZE);
    var aligned := usable - TruncatedRem(usable, TRAILER_SIZE);
    if aligned < 0 then 0 else if aligned < MAXIMUM_PUSH_SIZE then aligned else MAXIMUM_PUSH_SIZE
  }

  // ---------------------------------------------------------------------------------------------
  // Index algebra
  // ---------------------------------------------------------------------------------------------

  lemma SlotAfterAdvance(n: nat, idx: nat, k: nat, i: nat)
    requires idx <= n && k + i < n
    ensures Advance(n, idx, k) <= n
    ensures Slot(n, Advance(n, idx, k), i) == Slot(n, idx, k + i)
  {}

  lemma AdvanceTwice(n: nat, idx: nat, k: nat, m: nat)
    requires idx <= n && k + m <= n
    ensures Advance(n, Advance(n, idx, k), m) == Advance(n, idx, k + m)
  {}

  lemma AdvanceAligned(n: nat, idx: nat, k: nat)
    requires n % 8 == 0 && idx % 8 == 0 && k % 8 == 0
    ensures Advance(n, idx, k) % 8 == 0
  {}

  /** The index reached after `total` bytes have passed through an area of `n` bytes. */
  function IndexOf(n: nat, total: nat): nat
    requires n > 0
  {
    if total == 0 then 0 else (total - 1) % n + 1
  }

  lemma ModUnique(a: int, q: int, m: int, n: int)
    requires a == q * n + m && 0 <= m < n
    ensures a % n == m
  {
    var d := q - a / n;
    assert a == n * (a / n) + a % n;
    assert n * d == a % n - m;
    MulBound(n, d);
  }

  lemma MulBound(n: int, d: int)
    requires n > 0
    ensures d > 0 ==> n * d >= n
    ensures d < 0 ==> n * d <= -n
  {}

  /** Both index update rules realise the closed form: an index is a function of the bytes that passed. */
  lemma AdvanceIsClosedForm(n: nat, total: nat, k: nat)
    requires 0 < n && k <= n
    ensures IndexOf(n, total) <= n
    ensures Advance(n, IndexOf(n, total), k) == IndexOf(n, total + k)
    ensures total > 0 ==> IndexOf(n, total) > 0
  {
    if k == 0 {
    } else if total == 0 {
      ModUnique(k - 1, 0, k - 1, n);
    } else {
      var m, q := (total - 1) % n, (total - 1) / n;
      assert total - 1 == q * n + m;
      if m + k < n {
        ModUnique(total - 1 + k, q, m + k, n);
      } else {
        assert total - 1 + k == (q + 1) * n + (m + k - n);
        if m + k - n < n {
          ModUnique(total - 1 + k, q + 1, m + k - n, n);
        }
      }
    }
  }

  /** Reported sizes against true totals: exact, except that a full ring with a moved out index reads as empty. */
  lemma ReportedSize(data: seq<byte>, written: nat, read: nat)
    requires 0 < |data| && read <= written <= read + |data|
    ensures IndexOf(|data|, written) <= |data| && IndexOf(|data|, read) <= |data|
    ensures var r := Ring(IndexOf(|data|, written), IndexOf(|data|, read), data);
            && r.ReadSize() + r.WriteSize() == |data|
            && r.ReadSize() == if written - read == |data| && read > 0 then 0 else written - read
  {
    AdvanceIsClosedForm(|data|, read, written - read);
    AdvanceIsClosedForm(|data|, read, 0);
  }
}
