/** The two pure pieces of the socket communicator: `split_address`, which
    turns "host:port" text into an address pair, and the chunk schedule of
    `read_chunked`, which reads a message of known size in 4 KiB pieces into
    a buffer grown 64 KiB at a time. The socket itself is a parameter: the
    return value of each `read` call. */
module SocketCommunicator {
  import opened Text
  import opened CInts
  import opened CNumerals
  import Config

  // ---------------------------------------------------------------------
  // split_address
  // ---------------------------------------------------------------------

  /** `AddrPortPair`; the default-constructed pair is ("", 0). */
  datatype AddrPortPair = AddrPortPair(host: string, port: U16)

  const NoAddress := AddrPortPair("", 0)

  /** `split_address`, as written: the host is the text before the first
      ':', and the rest must be read completely by strtol as a number in
      [0, 65535]; anything else gives the empty pair. strtol reads nothing
      from an empty port and then stands at its end, so "host:" is accepted
      with port 0. */
  function SplitAddressAsWritten(address: string): (r: AddrPortPair)
    ensures ':' !in address ==> r == NoAddress
    ensures r != NoAddress ==>
              |r.host| < |address| && address[..|r.host|] == r.host && address[|r.host|] == ':'
              && ':' !in r.host
  {
    var k := Config.IndexOf(address, ':');
    if k == |address| then NoAddress
    else
      var portText := address[k + 1..];
      var (port, used) := StrToL(portText);
      if used != |portText| || port < 0 || port > Two16 - 1 then NoAddress
      else AddrPortPair(address[..k], port)
  }

  /** `split_address` as evidently intended: an empty port is rejected like
      any other port that is not a number. */
  function SplitAddress(address: string): (r: AddrPortPair)
    ensures ':' !in address ==> r == NoAddress
    ensures r != NoAddress ==>
              |r.host| + 1 < |address| && address[..|r.host|] == r.host && address[|r.host|] == ':'
              && ':' !in r.host
  {
    var k := Config.IndexOf(address, ':');
    if k == |address| || k + 1 == |address| then NoAddress
    else SplitAddressAsWritten(address)
  }

  /** An empty port is taken as port 0 by the code as written. */
  lemma SplitAddressEmptyPort(host: string)
    requires ':' !in host && |host| > 0
    ensures SplitAddressAsWritten(host + ":") == AddrPortPair(host, 0)
    ensures SplitAddress(host + ":") == NoAddress
  {
    var s := host + ":";
    Config.IndexOfAfterPrefix(host, ':', "");
    assert host + [':'] + "" == s;
    assert s[|host| + 1..] == "";
    assert s[..|host|] == host;
  }

  /** A host without ':' and a rendered port are split back apart. */
  lemma SplitRenderedAddress(host: string, port: U16)
    requires ':' !in host
    ensures SplitAddress(host + ":" + NatToString(port)) == AddrPortPair(host, port)
    ensures SplitAddressAsWritten(host + ":" + NatToString(port)) == AddrPortPair(host, port)
  {
    var p := NatToString(port);
    var s := host + ":" + p;
    Config.IndexOfAfterPrefix(host, ':', p);
    assert host + [':'] + p == s;
    assert s[|host| + 1..] == p;
    assert s[..|host|] == host;
    StrToLOfNatToString(port);
  }

  /** A port that strtol cannot read completely, or that is out of range, is
      refused even when it starts with digits. */
  lemma SplitAddressRejectsTrailingText(host: string, port: nat, junk: string)
    requires ':' !in host && |junk| > 0 && !IsDigit(junk[0])
    ensures SplitAddress(host + ":" + NatToString(port) + junk) == NoAddress
  {
    var p := NatToString(port);
    var s := host + ":" + (p + junk);
    assert s == host + ":" + p + junk;
    Config.IndexOfAfterPrefix(host, ':', p + junk);
    assert host + [':'] + (p + junk) == s;
    assert s[|host| + 1..] == p + junk;
    ScanOfDigits(p);
    assert (p + junk)[..|p|] == p;
    LeadingDigitsOfNumeral(p, junk);
    assert p + junk == p + junk;
    ScanStopsAtJunk(p, junk);
  }

  lemma ScanStopsAtJunk(p: string, junk: string)
    requires |p| > 0 && AllDigits(p) && |junk| > 0 && !IsDigit(junk[0])
    ensures ScanInteger(p + junk).consumed == |p|
  {
    var s := p + junk;
    assert !IsSpace(s[0]) by {
      assert s[0] == p[0];
    }
    assert LeadingSpaces(s) == 0;
    assert s[0..] == s;
    assert s[0] != '+' && s[0] != '-' by {
      assert s[0] == p[0];
    }
    assert s[0..][0..] == s;
    LeadingDigitsOfNumeral(p, junk);
  }

  // ---------------------------------------------------------------------
  // read_chunked
  // ---------------------------------------------------------------------

  const ReadStep: nat := 0x1000
  const AllocateStep: nat := ReadStep * 16
  const ResizeEvery: nat := AllocateStep / ReadStep

  /** What one `read` system call returns: a byte count, or -1 with errno. */
  datatype ReadReturn = Got(count: nat) | Failed(wouldBlock: bool)

  datatype ConnectionError = NoError | WouldBlock | Closed | Unrecoverable

  /** `read_message`: a negative return is an error, zero means the peer
      closed the connection, any positive count (even a short one) is
      success. */
  function ReadMessage(r: ReadReturn): (e: ConnectionError)
    ensures e == NoError <==> r.Got? && r.count > 0
    ensures e == Closed <==> r == Got(0)
  {
    match r
    case Got(n) => if n == 0 then Closed else NoError
    case Failed(wb) => if wb then WouldBlock else Unrecoverable
  }

  /** The number of loop iterations: n / 4096, plus one for a remainder. */
  function NumIters(n: nat): (k: nat)
    ensures k == 0 <==> n == 0
    ensures k > 0 ==> (k - 1) * ReadStep < n <= k * ReadStep
  {
    n / ReadStep + (if n % ReadStep == 0 then 0 else 1)
  }

  /** The size requested by iteration i, as written: 4096, except that the
      last iteration requests n mod 4096 bytes, which is 0 when 4096
      divides n. */
  function ChunkAsWritten(n: nat, i: nat): nat
  {
    if i == NumIters(n) - 1 then n % ReadStep else ReadStep
  }

  /** The size iteration i should request: the last chunk is whatever is
      left, which is a full 4096 bytes when 4096 divides n. */
  function Chunk(n: nat, i: nat): (c: nat)
    requires i < NumIters(n)
    ensures 0 < c <= ReadStep
    ensures i * ReadStep + c <= n
  {
    if i == NumIters(n) - 1 then n - i * ReadStep else ReadStep
  }

  /** The sizes requested, in order. */
  function ScheduleAsWritten(n: nat): (s: seq<nat>)
    ensures |s| == NumIters(n)
  {
    seq(NumIters(n), i requires 0 <= i < NumIters(n) => ChunkAsWritten(n, i))
  }

  function Schedule(n: nat): (s: seq<nat>)
    ensures |s| == NumIters(n)
  {
    seq(NumIters(n), i requires 0 <= i < NumIters(n) => Chunk(n, i))
  }

  function Sum(s: seq<nat>): nat
  {
    if |s| == 0 then 0 else Sum(s[..|s| - 1]) + s[|s| - 1]
  }

  lemma {:induction false} SumFull(k: nat)
    ensures Sum(seq(k, _ => ReadStep)) == k * ReadStep
  {
    if k > 0 {
      var s := seq(k, _ => ReadStep);
      assert s[..k - 1] == seq(k - 1, _ => ReadStep);
      SumFull(k - 1);
    }
  }

  /** The intended schedule asks for exactly n bytes, never for 0. */
  lemma ScheduleCoversMessage(n: nat)
    ensures Sum(Schedule(n)) == n
    ensures forall i :: 0 <= i < |Schedule(n)| ==> Schedule(n)[i] > 0
  {
    var s := Schedule(n);
    var k := |s|;
    if k > 0 {
      assert s[..k - 1] == seq(k - 1, _ => ReadStep);
      SumFull(k - 1);
    }
  }

  /** As written, the schedule agrees with the intended one unless 4096
      divides n; then its last request is for 0 bytes and the last 4096
      bytes of the message are never asked for. */
  lemma ScheduleAsWrittenDiffers(n: nat)
    ensures n % ReadStep != 0 ==> ScheduleAsWritten(n) == Schedule(n)
    ensures n > 0 && n % ReadStep == 0 ==>
              ScheduleAsWritten(n)[NumIters(n) - 1] == 0
              && Sum(ScheduleAsWritten(n)) == n - ReadStep
  {
    var w := ScheduleAsWritten(n);
    var k := |w|;
    if n % ReadStep != 0 {
      assert forall i :: 0 <= i < k ==> w[i] == Schedule(n)[i];
    } else if n > 0 {
      assert w[..k - 1] == seq(k - 1, _ => ReadStep);
      SumFull(k - 1);
    }
  }

  /** Every request of a schedule succeeds on this connection. */
  predicate AllSucceed(conn: (nat, nat) -> ReadReturn, sched: seq<nat>)
  {
    forall i :: 0 <= i < |sched| ==> ReadMessage(conn(i, sched[i])) == NoError
  }

  /** The size of the buffer `read_chunked` returns: the whole message when
      every request succeeds, the empty vector after any failure. Here
      conn(i, c) is what the i-th `read` call, asking for c bytes, returns. */
  function ChunkedReadSize(n: nat, sched: seq<nat>, conn: (nat, nat) -> ReadReturn): nat
  {
    if AllSucceed(conn, sched) then n else 0
  }

  /** The buffer capacity once `blocks` allocation steps have been made,
      the last one cut short at n. */
  function Capacity(n: nat, blocks: nat): nat
  {
    if blocks * AllocateStep < n then blocks * AllocateStep else n
  }

  /** One more allocation step grows the buffer by 65536 bytes or up to n. */
  lemma CapacityStep(n: nat, blocks: nat)
    ensures var c := Capacity(n, blocks);
            c <= n && c + (if n - c > AllocateStep then AllocateStep else n - c) == Capacity(n, blocks + 1)
  {
    assert (blocks + 1) * AllocateStep == blocks * AllocateStep + AllocateStep;
  }

  /** The blocks allocated before iteration i, one every 16 iterations. */
  lemma BlocksStep(i: nat)
    ensures (i + ResizeEvery) / ResizeEvery == (i + ResizeEvery - 1) / ResizeEvery + (if i % ResizeEvery == 0 then 1 else 0)
  {
    var q, r := i / ResizeEvery, i % ResizeEvery;
    assert i == ResizeEvery * q + r;
    if r == 0 {
      assert (i + ResizeEvery - 1) / ResizeEvery == q;
    } else {
      assert (i + ResizeEvery - 1) / ResizeEvery == q + 1;
    }
    assert (i + ResizeEvery) / ResizeEvery == q + 1;
  }

  /** The chunk iteration i writes ends inside the message and inside the
      blocks allocated by then. */
  lemma ChunkFits(n: nat, i: nat)
    requires i < NumIters(n)
    ensures i * ReadStep + ChunkAsWritten(n, i) <= Capacity(n, (i + ResizeEvery) / ResizeEvery)
  {
    var k := NumIters(n);
    var c := ChunkAsWritten(n, i);
    var q, r := i / ResizeEvery, i % ResizeEvery;
    assert i == ResizeEvery * q + r;
    assert (i + ResizeEvery) / ResizeEvery == q + 1;
    assert (q + 1) * AllocateStep == (ResizeEvery * q + ResizeEvery) * ReadStep;
    assert (i + 1) * ReadStep <= (q + 1) * AllocateStep;
    if i == k - 1 {
      assert c == n % ReadStep;
      assert n == ReadStep * (n / ReadStep) + n % ReadStep;
      if n % ReadStep == 0 {
        assert i == n / ReadStep - 1;
      } else {
        assert i == n / ReadStep;
      }
      assert i * ReadStep + c <= n;
    } else {
      assert (i + 1) * ReadStep <= (k - 1) * ReadStep;
    }
  }

  /** `read_chunked` as written. Every write of a chunk lands inside the
      buffer capacity so far, and the buffer never grows beyond n. */
  method ReadChunked(n: nat, conn: (nat, nat) -> ReadReturn) returns (size: nat, capacity: nat)
    ensures size == ChunkedReadSize(n, ScheduleAsWritten(n), conn)
    ensures capacity <= n
  {
    var iters := NumIters(n);
    capacity := 0;
    var blocks: nat := 0;
    var i: nat := 0;
    while i < iters
      invariant i <= iters
      invariant blocks == (i + ResizeEvery - 1) / ResizeEvery
      invariant capacity == Capacity(n, blocks)
      invariant forall j :: 0 <= j < i ==> ReadMessage(conn(j, ChunkAsWritten(n, j))) == NoError
    {
      BlocksStep(i);
      if i % ResizeEvery == 0 {
        CapacityStep(n, blocks);
        var left := n - capacity;
        capacity := capacity + (if left > AllocateStep then AllocateStep else left);
        blocks := blocks + 1;
      }
      var want := if i == iters - 1 then n % ReadStep else ReadStep;
      ChunkFits(n, i);
      assert i * ReadStep + want <= capacity;
      if ReadMessage(conn(i, want)) != NoError {
        assert ScheduleAsWritten(n)[i] == want;
        return 0, capacity;
      }
      i := i + 1;
    }
    assert forall j :: 0 <= j < iters ==> ScheduleAsWritten(n)[j] == ChunkAsWritten(n, j);
    size := n;
  }

  /** `read` asked for 0 bytes returns 0, so the final empty request of a
      message whose size 4096 divides is reported as a closed connection and
      the whole message is dropped, whatever the peer sent. */
  lemma ReadChunkedDropsMultiples(n: nat, conn: (nat, nat) -> ReadReturn)
    requires n > 0 && n % ReadStep == 0
    requires conn(NumIters(n) - 1, 0) == Got(0)
    ensures ChunkedReadSize(n, ScheduleAsWritten(n), conn) == 0
  {
    ScheduleAsWrittenDiffers(n);
  }

  /** With the intended schedule, a peer that delivers every non-empty
      request gives the whole message. */
  lemma ReadChunkedDelivers(n: nat, conn: (nat, nat) -> ReadReturn)
    requires forall i, c :: c > 0 ==> conn(i, c).Got? && conn(i, c).count > 0
    ensures ChunkedReadSize(n, Schedule(n), conn) == n
  {
    ScheduleCoversMessage(n);
  }

  /** Any failed request drops the message. */
  lemma ReadChunkedFailure(n: nat, sched: seq<nat>, conn: (nat, nat) -> ReadReturn, i: nat)
    requires i < |sched| && ReadMessage(conn(i, sched[i])) != NoError
    ensures ChunkedReadSize(n, sched, conn) == 0
  {
  }
}
