/**
 * The UDP transceiver: how `NetcodeSocket` turns the operating system's
 * answers into its own results (`recv`, `send`), and the ordered
 * configuration that `NetcodeSocket::new` performs on a fresh socket.
 *
 * The operating system is not modelled: every OS call's outcome is a
 * parameter (a `Result` for `recv_from`/`send_to`, an `Os` value for the
 * configuration calls).
 */
module Socket {
  import opened Wrappers
  import opened Nonce

  type u16 = x: int | 0 <= x < 0x1_0000

  /** The four octets of an `Ipv4Addr`. */
  type Ipv4Octets = s: seq<u8> | |s| == 4 witness [0, 0, 0, 0]

  /** The eight 16-bit segments of an `Ipv6Addr`. */
  type Ipv6Segments = s: seq<u16> | |s| == 8 witness [0, 0, 0, 0, 0, 0, 0, 0]

  datatype IpAddr = V4(octets: Ipv4Octets) | V6(segments: Ipv6Segments)

  datatype SocketAddr = SocketAddr(ip: IpAddr, port: u16) {
    predicate IsIpv6() { ip.V6? }
  }

  /** Address family of a socket. */
  datatype Domain = Ipv4 | Ipv6

  /** `Domain::for_address`: the family that matches the address. */
  function DomainFor(addr: SocketAddr): (d: Domain)
    ensures d == Ipv6 <==> addr.IsIpv6()
  {
    if addr.IsIpv6() then Ipv6 else Ipv4
  }

  /** The kinds of `io::Error` this code tells apart; everything else is `Other`. */
  datatype ErrorKind = WouldBlock | InvalidInput | Other(name: string)

  datatype IoError = IoError(kind: ErrorKind, message: string)

  /** The transceiver's error: a wrapped I/O error. */
  datatype Error = Error(cause: IoError)

  /**
   * `recv`: a datagram of positive length is reported with its length and
   * sender; a zero-length datagram and "would block" both mean "nothing
   * arrived"; every other error is passed on, wrapped.
   */
  function Recv(received: Result<(nat, SocketAddr), IoError>): (r: Result<Option<(nat, SocketAddr)>, Error>)
    ensures (r.Ok? && r.value.Some?) <==> (received.Ok? && received.value.0 > 0)
    ensures r.Ok? && r.value.Some? ==> r.value.value == received.value
    ensures r == Ok(None) <==>
      (received.Ok? && received.value.0 == 0) || (received.Err? && received.error.kind == WouldBlock)
    ensures r.Err? <==> received.Err? && received.error.kind != WouldBlock
    ensures r.Err? ==> r.error == Error(received.error)
  {
    match received
    case Ok((len, addr)) => if len > 0 then Ok(Some((len, addr))) else Ok(None)
    case Err(e) => if e.kind == WouldBlock then Ok(None) else Err(Error(e))
  }

  /**
   * `send`: the byte count the OS accepted is returned unchanged; "would
   * block" means zero bytes were accepted; every other error is passed on,
   * wrapped.
   */
  function Send(sent: Result<nat, IoError>): (r: Result<nat, Error>)
    ensures r.Ok? <==> sent.Ok? || sent.error.kind == WouldBlock
    ensures sent.Ok? ==> r == Ok(sent.value)
    ensures sent.Err? && sent.error.kind == WouldBlock ==> r == Ok(0)
    ensures r.Err? ==> r.error == Error(sent.error)
  {
    match sent
    case Ok(len) => Ok(len)
    case Err(e) => if e.kind == WouldBlock then Ok(0) else Err(Error(e))
  }

  /**
   * The address `new` binds to: the first one resolution yields. Resolution
   * errors pass through, and an empty resolution is an `InvalidInput` error.
   */
  function FirstAddress(resolved: Result<seq<SocketAddr>, IoError>): (r: Result<SocketAddr, IoError>)
    ensures r.Ok? <==> resolved.Ok? && |resolved.value| > 0
    ensures r.Ok? ==> r.value == resolved.value[0]
    ensures resolved.Err? ==> r == Err(resolved.error)
    ensures resolved == Ok([]) ==> r.Err? && r.error.kind == InvalidInput
  {
    match resolved
    case Err(e) => Err(e)
    case Ok(addrs) =>
      if |addrs| == 0 then Err(IoError(InvalidInput, "no socket addresses found"))
      else Ok(addrs[0])
  }

  /** One configuration call on the socket. */
  datatype Step =
    | Create(domain: Domain)
    | SetOnlyV6(only: bool)
    | SetSendBufferSize(size: nat)
    | SetRecvBufferSize(size: nat)
    | Bind(addr: SocketAddr)
    | SetNonblocking(nonblocking: bool)

  /** The operating system's answer to each configuration call: `None` accepts, `Some(e)` refuses. */
  datatype Os = Os(outcome: Step -> Option<IoError>)

  /** The calls `new` makes, in order, for a resolved address. */
  function Plan(addr: SocketAddr, sendBufSize: nat, recvBufSize: nat): seq<Step> {
    [Create(DomainFor(addr))] + Configuration(addr, sendBufSize, recvBufSize)
  }

  /** The calls made on the socket once it exists. */
  function Configuration(addr: SocketAddr, sendBufSize: nat, recvBufSize: nat): seq<Step> {
    (if addr.IsIpv6() then [SetOnlyV6(true)] else []) + FinalSteps(addr, sendBufSize, recvBufSize)
  }

  /** The calls made whatever the address family. */
  function FinalSteps(addr: SocketAddr, sendBufSize: nat, recvBufSize: nat): seq<Step> {
    [SetSendBufferSize(sendBufSize), SetRecvBufferSize(recvBufSize), Bind(addr), SetNonblocking(true)]
  }

  /**
   * The plan creates a socket of the address's family first, restricts it
   * to IPv6 exactly when the address is IPv6, sets the two buffer sizes,
   * binds, and switches to non-blocking mode last of all.
   */
  lemma PlanOrder(addr: SocketAddr, sendBufSize: nat, recvBufSize: nat)
    ensures var plan := Plan(addr, sendBufSize, recvBufSize);
      && |plan| == (if addr.IsIpv6() then 6 else 5)
      && plan[0] == Create(DomainFor(addr))
      && (SetOnlyV6(true) in plan <==> addr.IsIpv6())
      && plan[|plan| - 4..] ==
           [SetSendBufferSize(sendBufSize), SetRecvBufferSize(recvBufSize), Bind(addr), SetNonblocking(true)]
      && (forall i :: 0 <= i < |plan| && plan[i].SetNonblocking? ==> i == |plan| - 1)
  {
  }

  /** The error of the first call in `plan` that the OS refuses, if any. */
  function FirstFailure(plan: seq<Step>, os: Os): Option<IoError> {
    if plan == [] then None
    else if os.outcome(plan[0]).Some? then os.outcome(plan[0])
    else FirstFailure(plan[1..], os)
  }

  /**
   * `FirstFailure` reports nothing exactly when the OS accepts every call,
   * and otherwise the error of a refused call that every earlier call
   * precedes successfully.
   */
  lemma {:induction false} FirstFailureIsFirst(plan: seq<Step>, os: Os)
    ensures FirstFailure(plan, os).None? <==> forall i :: 0 <= i < |plan| ==> os.outcome(plan[i]).None?
    ensures FirstFailure(plan, os).Some? ==>
      exists i :: 0 <= i < |plan| && os.outcome(plan[i]) == FirstFailure(plan, os)
                  && forall j :: 0 <= j < i ==> os.outcome(plan[j]).None?
  {
    if plan != [] && os.outcome(plan[0]).None? {
      FirstFailureIsFirst(plan[1..], os);
      assert forall i :: 0 < i < |plan| ==> plan[i] == plan[1..][i - 1];
      if FirstFailure(plan, os).Some? {
        var k :| 0 <= k < |plan[1..]| && os.outcome(plan[1..][k]) == FirstFailure(plan, os)
                 && forall j :: 0 <= j < k ==> os.outcome(plan[1..][j]).None?;
        assert os.outcome(plan[k + 1]) == FirstFailure(plan, os);
      }
    }
  }

  /** The calls of `plan` actually made: up to and including the first refused one. */
  function Attempted(plan: seq<Step>, os: Os): seq<Step> {
    if plan == [] then []
    else if os.outcome(plan[0]).Some? then [plan[0]]
    else [plan[0]] + Attempted(plan[1..], os)
  }

  /**
   * The calls made are a prefix of the plan. When nothing is refused they
   * are the whole plan; otherwise they end with the refused call whose
   * error is reported, and every call before it was accepted.
   */
  lemma {:induction false} AttemptedStopsAtFirstFailure(plan: seq<Step>, os: Os)
    ensures |Attempted(plan, os)| <= |plan| && Attempted(plan, os) == plan[..|Attempted(plan, os)|]
    ensures FirstFailure(plan, os).None? ==> Attempted(plan, os) == plan
    ensures FirstFailure(plan, os).Some? ==>
      && Attempted(plan, os) != []
      && os.outcome(Attempted(plan, os)[|Attempted(plan, os)| - 1]) == FirstFailure(plan, os)
      && forall i :: 0 <= i < |Attempted(plan, os)| - 1 ==> os.outcome(Attempted(plan, os)[i]).None?
  {
    if plan != [] && os.outcome(plan[0]).None? {
      AttemptedStopsAtFirstFailure(plan[1..], os);
      var rest := Attempted(plan[1..], os);
      assert Attempted(plan, os) == [plan[0]] + rest;
      assert plan == [plan[0]] + plan[1..];
      if FirstFailure(plan, os).Some? {
        assert Attempted(plan, os)[|Attempted(plan, os)| - 1] == rest[|rest| - 1];
        assert forall i :: 0 < i < |Attempted(plan, os)| ==> Attempted(plan, os)[i] == rest[i - 1];
      }
    }
  }

  lemma AttemptedCons(step: Step, rest: seq<Step>, os: Os)
    ensures Attempted([step] + rest, os)
            == if os.outcome(step).Some? then [step] else [step] + Attempted(rest, os)
  {
    assert ([step] + rest)[1..] == rest;
  }

  lemma FirstFailureCons(step: Step, rest: seq<Step>, os: Os)
    ensures FirstFailure([step] + rest, os)
            == if os.outcome(step).Some? then os.outcome(step) else FirstFailure(rest, os)
  {
  }

  /**
   * The OS socket being configured (socket2's `Socket`). Options that were
   * never set are `None`, meaning the operating system's default.
   */
  class UdpSocket {
    const domain: Domain
    var onlyV6: Option<bool>
    var sendBufferSize: Option<nat>
    var recvBufferSize: Option<nat>
    var boundTo: Option<SocketAddr>
    var nonblocking: bool
    /** The configuration calls made on this socket so far, including refused ones. */
    ghost var calls: seq<Step>

    /** A socket as `Socket::new` returns it: nothing set yet. */
    constructor (domain: Domain)
      ensures this.domain == domain && onlyV6 == None && sendBufferSize == None
      ensures recvBufferSize == None && boundTo == None && !nonblocking
      ensures calls == [Create(domain)]
    {
      this.domain := domain;
      onlyV6, sendBufferSize, recvBufferSize, boundTo, nonblocking := None, None, None, None, false;
      calls := [Create(domain)];
    }

    /** `Socket::new`, which the OS may refuse. */
    static method Open(os: Os, domain: Domain) returns (r: Result<UdpSocket, IoError>)
      ensures r.Err? <==> os.outcome(Create(domain)).Some?
      ensures r.Err? ==> r.error == os.outcome(Create(domain)).value
      ensures r.Ok? ==> fresh(r.value) && r.value.domain == domain && r.value.calls == [Create(domain)]
      ensures r.Ok? ==> r.value.onlyV6 == None && r.value.sendBufferSize == None
      ensures r.Ok? ==> r.value.recvBufferSize == None && r.value.boundTo == None && !r.value.nonblocking
    {
      var refused := os.outcome(Create(domain));
      if refused.Some? {
        return Err(refused.value);
      }
      var s := new UdpSocket(domain);
      r := Ok(s);
    }

    method SetOnlyV6(os: Os, only: bool) returns (err: Option<IoError>)
      modifies this
      ensures err == os.outcome(Step.SetOnlyV6(only)) && calls == old(calls) + [Step.SetOnlyV6(only)]
      ensures onlyV6 == if err.None? then Some(only) else old(onlyV6)
      ensures sendBufferSize == old(sendBufferSize) && recvBufferSize == old(recvBufferSize)
      ensures boundTo == old(boundTo) && nonblocking == old(nonblocking)
    {
      err := os.outcome(Step.SetOnlyV6(only));
      if err.None? {
        onlyV6 := Some(only);
      }
      calls := calls + [Step.SetOnlyV6(only)];
    }

    method SetSendBufferSize(os: Os, size: nat) returns (err: Option<IoError>)
      modifies this
      ensures err == os.outcome(Step.SetSendBufferSize(size)) && calls == old(calls) + [Step.SetSendBufferSize(size)]
      ensures sendBufferSize == if err.None? then Some(size) else old(sendBufferSize)
      ensures onlyV6 == old(onlyV6) && recvBufferSize == old(recvBufferSize)
      ensures boundTo == old(boundTo) && nonblocking == old(nonblocking)
    {
      err := os.outcome(Step.SetSendBufferSize(size));
      if err.None? {
        sendBufferSize := Some(size);
      }
      calls := calls + [Step.SetSendBufferSize(size)];
    }

    method SetRecvBufferSize(os: Os, size: nat) returns (err: Option<IoError>)
      modifies this
      ensures err == os.outcome(Step.SetRecvBufferSize(size)) && calls == old(calls) + [Step.SetRecvBufferSize(size)]
      ensures recvBufferSize == if err.None? then Some(size) else old(recvBufferSize)
      ensures onlyV6 == old(onlyV6) && sendBufferSize == old(sendBufferSize)
      ensures boundTo == old(boundTo) && nonblocking == old(nonblocking)
    {
      err := os.outcome(Step.SetRecvBufferSize(size));
      if err.None? {
        recvBufferSize := Some(size);
      }
      calls := calls + [Step.SetRecvBufferSize(size)];
    }

    method Bind(os: Os, addr: SocketAddr) returns (err: Option<IoError>)
      modifies this
      ensures err == os.outcome(Step.Bind(addr)) && calls == old(calls) + [Step.Bind(addr)]
      ensures boundTo == if err.None? then Some(addr) else old(boundTo)
      ensures onlyV6 == old(onlyV6) && sendBufferSize == old(sendBufferSize)
      ensures recvBufferSize == old(recvBufferSize) && nonblocking == old(nonblocking)
    {
      err := os.outcome(Step.Bind(addr));
      if err.None? {
        boundTo := Some(addr);
      }
      calls := calls + [Step.Bind(addr)];
    }

    method SetNonblocking(os: Os, on: bool) returns (err: Option<IoError>)
      modifies this
      ensures err == os.outcome(Step.SetNonblocking(on)) && calls == old(calls) + [Step.SetNonblocking(on)]
      ensures nonblocking == if err.None? then on else old(nonblocking)
      ensures onlyV6 == old(onlyV6) && sendBufferSize == old(sendBufferSize)
      ensures recvBufferSize == old(recvBufferSize) && boundTo == old(boundTo)
    {
      err := os.outcome(Step.SetNonblocking(on));
      if err.None? {
        nonblocking := on;
      }
      calls := calls + [Step.SetNonblocking(on)];
    }
  }

  /** A transceiver over one bound, non-blocking UDP socket. */
  class NetcodeSocket {
    const socket: UdpSocket

    /**
     * The socket is configured for `addr` exactly as `new` promises: right
     * family, IPv6-only when IPv6, the requested buffer sizes, bound to
     * `addr`, non-blocking.
     */
    ghost predicate ConfiguredFor(addr: SocketAddr, sendBufSize: nat, recvBufSize: nat)
      reads socket
    {
      && socket.domain == DomainFor(addr)
      && socket.onlyV6 == (if addr.IsIpv6() then Some(true) else None)
      && socket.sendBufferSize == Some(sendBufSize)
      && socket.recvBufferSize == Some(recvBufSize)
      && socket.boundTo == Some(addr)
      && socket.nonblocking
    }

    constructor (socket: UdpSocket)
      ensures this.socket == socket
    {
      this.socket := socket;
    }

    /**
     * `NetcodeSocket::new`: resolves the address, then makes the calls of
     * `Plan` in order, stopping at the first one the OS refuses. Only when
     * every call succeeds is a transceiver returned, and then its socket is
     * configured for the first resolved address.
     */
    static method New(resolved: Result<seq<SocketAddr>, IoError>, sendBufSize: nat, recvBufSize: nat, os: Os)
      returns (r: Result<NetcodeSocket, Error>)
      ensures FirstAddress(resolved).Err? ==> r == Err(Error(FirstAddress(resolved).error))
      ensures FirstAddress(resolved).Ok? ==>
        var plan := Plan(FirstAddress(resolved).value, sendBufSize, recvBufSize);
        match FirstFailure(plan, os)
        case Some(e) => r == Err(Error(e))
        case None =>
          && r.Ok? && fresh(r.value) && fresh(r.value.socket)
          && r.value.socket.calls == plan
          && r.value.ConfiguredFor(FirstAddress(resolved).value, sendBufSize, recvBufSize)
    {
      var first := FirstAddress(resolved);
      if first.Err? {
        return Err(Error(first.error));
      }
      var addr := first.value;
      FirstFailureCons(Create(DomainFor(addr)), Configuration(addr, sendBufSize, recvBufSize), os);
      var created := UdpSocket.Open(os, DomainFor(addr));
      if created.Err? {
        return Err(Error(created.error));
      }
      var socket := created.value;
      AttemptedStopsAtFirstFailure(Configuration(addr, sendBufSize, recvBufSize), os);
      var err := Configure(socket, addr, sendBufSize, recvBufSize, os);
      if err.Some? {
        return Err(Error(err.value));
      }
      var transceiver := new NetcodeSocket(socket);
      r := Ok(transceiver);
    }
  }

  /** The calls of `Configuration` on a freshly created socket, stopping at the first refusal. */
  method Configure(socket: UdpSocket, addr: SocketAddr, sendBufSize: nat, recvBufSize: nat, os: Os)
    returns (err: Option<IoError>)
    requires socket.onlyV6 == None
    modifies socket
    ensures err == FirstFailure(Configuration(addr, sendBufSize, recvBufSize), os)
    ensures socket.calls == old(socket.calls) + Attempted(Configuration(addr, sendBufSize, recvBufSize), os)
    ensures err.None? ==> socket.onlyV6 == (if addr.IsIpv6() then Some(true) else None)
    ensures err.None? ==> socket.sendBufferSize == Some(sendBufSize) && socket.recvBufferSize == Some(recvBufSize)
    ensures err.None? ==> socket.boundTo == Some(addr) && socket.nonblocking
  {
    var tail := FinalSteps(addr, sendBufSize, recvBufSize);
    assert Configuration(addr, sendBufSize, recvBufSize)
           == if addr.IsIpv6() then [SetOnlyV6(true)] + tail else tail;
    if addr.IsIpv6() {
      FirstFailureCons(SetOnlyV6(true), tail, os);
      AttemptedCons(SetOnlyV6(true), tail, os);
      err := socket.SetOnlyV6(os, true);
      if err.Some? {
        return;
      }
    }
    ghost var before := socket.calls;
    err := ConfigureFinalSteps(socket, addr, sendBufSize, recvBufSize, os);
    assert socket.calls == before + Attempted(tail, os);
  }

  /** The calls of `FinalSteps`, stopping at the first refusal. */
  method ConfigureFinalSteps(socket: UdpSocket, addr: SocketAddr, sendBufSize: nat, recvBufSize: nat, os: Os)
    returns (err: Option<IoError>)
    modifies socket
    ensures err == FirstFailure(FinalSteps(addr, sendBufSize, recvBufSize), os)
    ensures socket.calls == old(socket.calls) + Attempted(FinalSteps(addr, sendBufSize, recvBufSize), os)
    ensures err.None? ==> socket.onlyV6 == old(socket.onlyV6)
    ensures err.None? ==> socket.sendBufferSize == Some(sendBufSize) && socket.recvBufferSize == Some(recvBufSize)
    ensures err.None? ==> socket.boundTo == Some(addr) && socket.nonblocking
  {
    var s1, s2, s3, s4 := SetSendBufferSize(sendBufSize), SetRecvBufferSize(recvBufSize), Bind(addr), SetNonblocking(true);
    FirstFailureCons(s1, [s2, s3, s4], os);
    FirstFailureCons(s2, [s3, s4], os);
    FirstFailureCons(s3, [s4], os);
    FirstFailureCons(s4, [], os);
    AttemptedCons(s1, [s2, s3, s4], os);
    AttemptedCons(s2, [s3, s4], os);
    AttemptedCons(s3, [s4], os);
    AttemptedCons(s4, [], os);
    err := socket.SetSendBufferSize(os, sendBufSize);
    if err.Some? {
      return;
    }
    err := socket.SetRecvBufferSize(os, recvBufSize);
    if err.Some? {
      return;
    }
    err := socket.Bind(os, addr);
    if err.Some? {
      return;
    }
    err := socket.SetNonblocking(os, true);
  }
}
