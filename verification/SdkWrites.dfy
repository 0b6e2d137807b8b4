/** Proxy::write: a packet of the SDK on its way through the interceptors to the write proxy. */
module SdkWrites {
  import opened Bytes
  import opened Packets

  /** What an interceptor makes of a packet, None to swallow it, and the replies it hands the SDK itself. */
  datatype Verdict = Verdict(packet: Option<Packet>, answers: seq<Packet>)

  type Interceptor = Packet -> Verdict

  /** Each interceptor sees what the one before it let through; after a swallowed packet none is called. */
  function Chain(interceptors: seq<Interceptor>, p: Packet): Verdict
    decreases |interceptors|, 0
  {
    if interceptors == [] then Verdict(Some(p), [])
    else Then(interceptors[0](p), interceptors[1..])
  }

  function Then(v: Verdict, interceptors: seq<Interceptor>): Verdict
    decreases |interceptors|, 1
  {
    if v.packet == None then v
    else
      var rest := Chain(interceptors, v.packet.value);
      Verdict(rest.packet, v.answers + rest.answers)
  }

  /** Chains compose: installing interceptors in two goes is installing them in one. */
  lemma {:induction false} ChainComposes(a: seq<Interceptor>, b: seq<Interceptor>, p: Packet)
    ensures Chain(a + b, p) == Then(Chain(a, p), b)
  {
    if a == [] {
      assert a + b == b;
      assert [] + Chain(b, p).answers == Chain(b, p).answers;
    } else {
      assert (a + b)[1..] == a[1..] + b;
      var v := a[0](p);
      if v.packet != None {
        ChainComposes(a[1..], b, v.packet.value);
        var mid := Chain(a[1..], v.packet.value);
        if mid.packet != None {
          var end := Chain(b, mid.packet.value);
          assert v.answers + (mid.answers + end.answers) == v.answers + mid.answers + end.answers;
        }
      }
    }
  }

  /** What the n-th interceptor is called with, None once one has swallowed the packet. */
  function Reaching(interceptors: seq<Interceptor>, p: Packet, n: nat): Option<Packet>
    requires n <= |interceptors|
  {
    if n == 0 then Some(p)
    else
      match Reaching(interceptors, p, n - 1)
      case None => None
      case Some(q) => interceptors[n - 1](q).packet
  }

  /** The answers of the first n interceptors, that of the one that swallows the packet included and none after it. */
  function AnswersOf(interceptors: seq<Interceptor>, p: Packet, n: nat): seq<Packet>
    requires n <= |interceptors|
  {
    if n == 0 then []
    else
      AnswersOf(interceptors, p, n - 1)
      + match Reaching(interceptors, p, n - 1)
        case None => []
        case Some(q) => interceptors[n - 1](q).answers
  }

  lemma {:induction false} PrefixByTurns(interceptors: seq<Interceptor>, p: Packet, n: nat)
    requires n <= |interceptors|
    ensures Chain(interceptors[..n], p) == Verdict(Reaching(interceptors, p, n), AnswersOf(interceptors, p, n))
  {
    if n == 0 {
      assert interceptors[..0] == [];
    } else {
      PrefixByTurns(interceptors, p, n - 1);
      var front, last := interceptors[..n - 1], [interceptors[n - 1]];
      assert interceptors[..n] == front + last && last[1..] == [];
      ChainComposes(front, last, p);
      if Reaching(interceptors, p, n - 1) != None {
        var q := Reaching(interceptors, p, n - 1).value;
        assert Chain(last, q) == Then(last[0](q), []);
        assert last[0](q).answers + [] == last[0](q).answers;
      } else {
        assert AnswersOf(interceptors, p, n - 1) + [] == AnswersOf(interceptors, p, n - 1);
      }
    }
  }

  /** The chain is its interceptors in turn: the SDK gets the answers of each one called, in order, and no others. */
  lemma ChainByTurns(interceptors: seq<Interceptor>, p: Packet)
    ensures var n := |interceptors|;
            Chain(interceptors, p) == Verdict(Reaching(interceptors, p, n), AnswersOf(interceptors, p, n))
  {
    PrefixByTurns(interceptors, p, |interceptors|);
    assert interceptors[..|interceptors|] == interceptors;
  }

  /** A packet is lost exactly when some interceptor swallows what the ones before it made of the packet. */
  lemma {:induction false} LostWhereSwallowed(interceptors: seq<Interceptor>, p: Packet)
    ensures Chain(interceptors, p).packet == None
            <==> exists i: nat | i < |interceptors| ::
                   Chain(interceptors[..i], p).packet != None
                   && interceptors[i](Chain(interceptors[..i], p).packet.value).packet == None
  {
    if interceptors == [] {
    } else {
      var n := |interceptors| - 1;
      var front, last := interceptors[..n], interceptors[n];
      assert interceptors == front + [last];
      assert [last][1..] == [];
      ChainComposes(front, [last], p);
      LostWhereSwallowed(front, p);
      forall i: nat | i < n
        ensures front[..i] == interceptors[..i] && front[i] == interceptors[i]
      {}
      if Chain(front, p).packet != None {
        assert interceptors[..n] == front;
        var q := Chain(front, p).packet.value;
        assert Chain([last], q) == Then(last(q), []);
        assert Chain(interceptors, p).packet == last(Chain(front, p).packet.value).packet;
      } else {
        var i: nat :| i < |front| && Chain(front[..i], p).packet != None
                      && front[i](Chain(front[..i], p).packet.value).packet == None;
        assert front[..i] == interceptors[..i] && front[i] == interceptors[i];
      }
    }
  }

  /** What a write does to the outside, in order. */
  datatype Action = AwaitLine | Send(packet: Packet)

  class SdkWriter {
    var interceptors: seq<Interceptor>
    var actions: seq<Action>            // waits for the line and sends on sdk_send
    var sdkReceiveInput: seq<Packet>

    constructor ()
      ensures interceptors == [] && actions == [] && sdkReceiveInput == []
    {
      interceptors, actions, sdkReceiveInput := [], [], [];
    }

    method AddInterceptor(i: Interceptor)
      modifies this`interceptors
      ensures interceptors == old(interceptors) + [i]
    {
      interceptors := interceptors + [i];
    }

    /** What survives the chain is sent, once the line was waited for if it goes to an RS485 hub; a swallowed packet does not wait. */
    method Write(p: Packet, overRs: bool) returns (sent: bool)
      modifies this`actions, this`sdkReceiveInput
      ensures var v := Chain(interceptors, p);
              && (sent <==> v.packet != None)
              && actions == old(actions) + (if sent then (if overRs then [AwaitLine] else []) + [Send(v.packet.value)] else [])
              && sdkReceiveInput == old(sdkReceiveInput) + v.answers
    {
      var packet: Option<Packet> := Some(p);
      ghost var answers: seq<Packet> := [];
      assert interceptors[..0] == [];
      for i := 0 to |interceptors|
        invariant Chain(interceptors[..i], p) == Verdict(packet, answers)
        invariant sdkReceiveInput == old(sdkReceiveInput) + answers && actions == old(actions)
      {
        ghost var last := [interceptors[i]];
        assert interceptors[..i + 1] == interceptors[..i] + last && last[1..] == [];
        ChainComposes(interceptors[..i], last, p);
        if packet != None {
          var v := interceptors[i](packet.value);
          assert Chain(last, packet.value) == Then(v, []);
          packet := v.packet;
          sdkReceiveInput := sdkReceiveInput + v.answers;
          answers := answers + v.answers;
        }
      }
      assert interceptors[..|interceptors|] == interceptors;
      sent := packet != None;
      if sent {
        if overRs {
          actions := actions + [AwaitLine];
        }
        actions := actions + [Send(packet.value)];
      }
    }
  }
}
