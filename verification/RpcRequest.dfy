/** RPC request payloads: the host's encoder and the device's decoder are inverse to each other. */
module RpcRequest {
  import opened Bytes

  const MAX_ARGS: nat := 4
  const MAX_ARG_BYTES: nat := 31

  datatype Decoded = Malformed | BadArgs | Decoded(rpcId: u16, args: seq<seq<byte>>)

  /** An argument both ends accept. */
  predicate ProperArg(arg: seq<byte>) {
    |arg| <= MAX_ARG_BYTES && 0 !in arg
  }

  predicate AllProper(args: seq<seq<byte>>) {
    forall i :: 0 <= i < |args| ==> ProperArg(args[i])
  }

  predicate ProperArgs(args: seq<seq<byte>>) {
    |args| <= MAX_ARGS && AllProper(args)
  }

  /** Length-prefixed strings, one after the other. */
  function Packed(args: seq<seq<byte>>): seq<byte>
    requires forall i :: 0 <= i < |args| ==> |args[i]| < 0x100
  {
    if args == [] then [] else [|args[0]|] + args[0] + Packed(args[1..])
  }

  /** Reads exactly n strings that use up all of p. */
  function Strings(p: seq<byte>, n: nat): (r: Option<seq<seq<byte>>>)
    ensures r.Some? ==> |r.value| == n && forall i :: 0 <= i < n ==> |r.value[i]| < 0x100
    decreases n
  {
    if n == 0 then if p == [] then Some([]) else None
    else if p == [] || 1 + p[0] as nat > |p| then None
    else
      var length := p[0] as nat;
      match Strings(p[1 + length..], n - 1)
      case None => None
      case Some(rest) => Some([p[1..1 + length]] + rest)
  }

  lemma {:induction false} StringsOfPacked(args: seq<seq<byte>>)
    requires forall i :: 0 <= i < |args| ==> |args[i]| < 0x100
    ensures Strings(Packed(args), |args|) == Some(args)
  {
    hide Strings;
    if args == [] {
      StringsOne([], [], 0);
    } else {
      StringsOfPacked(args[1..]);
      StringsOne(args[0], Packed(args[1..]), |args|);
      assert args == [args[0]] + args[1..];
    }
  }

  /** One string in front of others is read first. */
  lemma StringsOne(arg: seq<byte>, others: seq<byte>, n: nat)
    requires |arg| < 0x100
    ensures n > 0 && Strings(others, n - 1).Some? ==>
              Strings([|arg|] + arg + others, n) == Some([arg] + Strings(others, n - 1).value)
    ensures Strings([], 0) == Some([])
  {
    var p := [|arg|] + arg + others;
    assert p[0] == |arg| && p[1..1 + |arg|] == arg && p[1 + |arg|..] == others;
  }

  lemma {:induction false} PackedOfStrings(p: seq<byte>, n: nat)
    requires Strings(p, n).Some?
    ensures Packed(Strings(p, n).value) == p
    decreases n
  {
    hide Packed;
    if n == 0 {
      PackedNone();
    } else {
      var rest := FirstString(p, n);
      PackedOfStrings(p[1 + p[0] as nat..], n - 1);
      PackedStep(p[1..1 + p[0] as nat], rest);
    }
  }

  /** The first string is its length byte and what that byte counts. */
  lemma FirstString(p: seq<byte>, n: nat) returns (rest: seq<seq<byte>>)
    requires n > 0 && Strings(p, n).Some?
    ensures p != [] && 1 + p[0] as nat <= |p| && Strings(p[1 + p[0] as nat..], n - 1) == Some(rest)
    ensures Strings(p, n).value == [p[1..1 + p[0] as nat]] + rest
    ensures p == [p[0]] + p[1..1 + p[0] as nat] + p[1 + p[0] as nat..]
  {
    rest := Strings(p[1 + p[0] as nat..], n - 1).value;
  }

  lemma PackedNone()
    ensures Packed([]) == []
  {
  }

  lemma PackedStep(arg: seq<byte>, rest: seq<seq<byte>>)
    requires |arg| < 0x100 && forall i :: 0 <= i < |rest| ==> |rest[i]| < 0x100
    ensures Packed([arg] + rest) == [|arg|] + arg + Packed(rest)
  {
    assert ([arg] + rest)[1..] == rest;
  }

  function Payload(rpcId: u16, args: seq<seq<byte>>): seq<byte>
    requires ProperArgs(args)
  {
    Le16(rpcId) + [|args|, 0] + Packed(args)
  }

  /** `RpcRequestEncoder.EncodePayload`: refuses improper arguments, otherwise fills the payload argument by argument. */
  method EncodePayload(rpcId: u16, args: seq<seq<byte>>) returns (r: Option<seq<byte>>)
    ensures r == if ProperArgs(args) then Some(Payload(rpcId, args)) else None
    ensures r.Some? ==> |r.value| <= 132
  {
    if |args| > MAX_ARGS {
      return None;
    }
    var total := 4;
    for i := 0 to |args|
      invariant forall k :: 0 <= k < i ==> ProperArg(args[k])
      invariant 4 <= total <= 4 + 32 * i
    {
      if |args[i]| > MAX_ARG_BYTES || 0 in args[i] {
        return None;
      }
      total := total + 1 + |args[i]|;
    }
    assert total <= 132;  // the host's last length check never refuses
    var payload := FillPayload(rpcId, args);
    return Some(payload);
  }

  /** Argument by argument behind the four fixed bytes. */
  method FillPayload(rpcId: u16, args: seq<seq<byte>>) returns (payload: seq<byte>)
    requires ProperArgs(args)
    ensures payload == Payload(rpcId, args) && |payload| <= 132
  {
    hide Packed;
    payload := Le16(rpcId) + [|args|, 0];
    assert args[0..] == args;
    for i := 0 to |args|
      invariant payload + Packed(args[i..]) == Payload(rpcId, args) && |payload| <= 4 + 32 * i
    {
      assert args[i..] == [args[i]] + args[i + 1..];
      PackedStep(args[i], args[i + 1..]);
      assert payload + Packed(args[i..]) == payload + [|args[i]|] + args[i] + Packed(args[i + 1..]);
      payload := payload + [|args[i]|] + args[i];
    }
    PackedNone();
    assert args[|args|..] == [] && payload + [] == payload;
  }

  /** What the device makes of a payload. */
  function Meaning(p: seq<byte>): Decoded {
    if |p| < 4 || p[3] != 0 then Malformed
    else
      match Strings(p[4..], p[2])
      case None => Malformed
      case Some(args) => if ProperArgs(args) then Decoded(FromLe16(p[..2]), args) else BadArgs
  }

  /** `binary_rpc_decode_request`: one pass that remembers a bad argument but reports broken framing first. */
  method DecodeRequest(p: seq<byte>) returns (r: Decoded)
    ensures r == Meaning(p)
  {
    hide Strings, AllProper;
    if |p| < 4 {
      return Malformed;
    }
    if p[3] != 0 {
      return Malformed;
    }
    var whole, bad, args := DecodeArgs(p, p[2]);
    if !whole {
      return Malformed;
    }
    if bad {
      return BadArgs;
    }
    return Decoded(FromLe16(p[..2]), args);
  }

  method DecodeArgs(p: seq<byte>, argc: nat) returns (whole: bool, bad: bool, args: seq<seq<byte>>)
    requires |p| >= 4
    ensures whole <==> Strings(p[4..], argc).Some?
    ensures whole ==> args == Strings(p[4..], argc).value && bad == !ProperArgs(args)
  {
    hide Strings, AllProper, ProperArg;
    bad := argc > MAX_ARGS;
    var offset := 4;
    args := [];
    StringsEdges(Strings(p[4..], argc));
    for k := 0 to argc
      invariant 4 <= offset <= |p| && |args| == k
      invariant Strings(p[4..], argc) == Prefixed(args, Strings(p[offset..], argc - k))
      invariant bad <==> argc > MAX_ARGS || !AllProper(args)
    {
      StringsBroken(p, offset, argc - k);
      if offset >= |p| {
        return false, bad, args;
      }
      var length: nat := p[offset];
      if offset + 1 + length > |p| {
        return false, bad, args;
      }
      StringsStep(p, offset, argc - k, args);
      var arg := p[offset + 1..offset + 1 + length];
      OneMoreArg(args, arg);
      if length > MAX_ARG_BYTES || 0 in arg {
        bad := true;
      }
      args := args + [arg];
      offset := offset + 1 + length;
    }
    StringsEnd(p[offset..]);
    assert args + [] == args;
    whole := offset == |p|;
  }

  function Prefixed(args: seq<seq<byte>>, rest: Option<seq<seq<byte>>>): Option<seq<seq<byte>>> {
    match rest case None => None case Some(more) => Some(args + more)
  }

  lemma StringsEdges(rest: Option<seq<seq<byte>>>)
    ensures Prefixed([], rest) == rest && AllProper([])
  {
    match rest case None => case Some(more) => assert [] + more == more;
  }

  lemma StringsEnd(p: seq<byte>)
    ensures Strings(p, 0) == if p == [] then Some([]) else None
  {
  }

  lemma StringsBroken(p: seq<byte>, offset: nat, n: nat)
    requires offset <= |p| && n > 0
    ensures offset == |p| || offset + 1 + p[offset] as nat > |p| ==> Strings(p[offset..], n) == None
  {
  }

  lemma OneMoreArg(args: seq<seq<byte>>, arg: seq<byte>)
    ensures AllProper(args + [arg]) <==> AllProper(args) && |arg| <= MAX_ARG_BYTES && 0 !in arg
  {
    assert (args + [arg])[|args|] == arg;
    assert forall i :: 0 <= i < |args| ==> (args + [arg])[i] == args[i];
  }

  lemma StringsStep(p: seq<byte>, offset: nat, n: nat, args: seq<seq<byte>>)
    requires offset < |p| && n > 0 && offset + 1 + p[offset] as nat <= |p|
    ensures var length := p[offset] as nat;
            Prefixed(args, Strings(p[offset..], n)) ==
            Prefixed(args + [p[offset + 1..offset + 1 + length]], Strings(p[offset + 1 + length..], n - 1))
  {
    var length := p[offset] as nat;
    var q := p[offset..];
    assert q[0] == p[offset] && q[1..1 + length] == p[offset + 1..offset + 1 + length] && q[1 + length..] == p[offset + 1 + length..];
    match Strings(q[1 + length..], n - 1)
    case None =>
    case Some(rest) => assert args + ([q[1..1 + length]] + rest) == args + [q[1..1 + length]] + rest;
  }

  /** Arguments survive the trip, and the device accepts nothing the host could not have sent. */
  lemma InverseCodecs(rpcId: u16, args: seq<seq<byte>>, p: seq<byte>)
    ensures ProperArgs(args) ==> Meaning(Payload(rpcId, args)) == Decoded(rpcId, args)
    ensures Meaning(p).Decoded? ==> ProperArgs(Meaning(p).args) && Payload(Meaning(p).rpcId, Meaning(p).args) == p
  {
    hide Meaning, Payload;
    if ProperArgs(args) {
      MeaningOfPayload(rpcId, args);
    }
    if Meaning(p).Decoded? {
      PayloadOfMeaning(p);
    }
  }

  lemma MeaningOfPayload(rpcId: u16, args: seq<seq<byte>>)
    requires ProperArgs(args)
    ensures Meaning(Payload(rpcId, args)) == Decoded(rpcId, args)
  {
    hide Strings, Packed, FromLe16;
    var q := Payload(rpcId, args);
    StringsOfPacked(args);
    assert q[4..] == Packed(args) && q[..2] == Le16(rpcId);
    Le16Inverse(rpcId, q[..2]);
  }

  lemma PayloadOfMeaning(p: seq<byte>)
    requires Meaning(p).Decoded?
    ensures ProperArgs(Meaning(p).args) && Payload(Meaning(p).rpcId, Meaning(p).args) == p
  {
    hide Strings, Packed, FromLe16, Le16;
    PackedOfStrings(p[4..], p[2]);
    Le16Inverse(0, p[..2]);
    assert p == p[..2] + [p[2], p[3]] + p[4..];
  }

  /** What the device answers to a well-framed payload depends on its arguments only: at most 4, of at most 31 bytes, without NUL. */
  lemma FramedIsJudged(p: seq<byte>, args: seq<seq<byte>>)
    requires |p| >= 4 && p[3] == 0 && |args| == p[2] as int && forall i :: 0 <= i < |args| ==> |args[i]| < 0x100
    requires p[4..] == Packed(args)
    ensures Meaning(p) == if |args| <= 4 && forall i :: 0 <= i < |args| ==> |args[i]| <= 31 && 0 !in args[i]
                          then Decoded(FromLe16(p[..2]), args) else BadArgs
  {
    hide Strings, Packed, FromLe16;
    StringsOfPacked(args);
  }

  /** And a payload that is not so framed is malformed. */
  lemma UnframedIsMalformed(p: seq<byte>)
    ensures Meaning(p) != Malformed <==>
            && |p| >= 4 && p[3] == 0
            && exists args :: |args| == p[2] as int && Bounded(args) && Packed(args) == p[4..]
  {
    hide Strings, Packed, FromLe16;
    if |p| >= 4 && p[3] == 0 {
      if Meaning(p) != Malformed {
        PackedOfStrings(p[4..], p[2]);
        assert Bounded(Strings(p[4..], p[2]).value);
      } else if exists args :: |args| == p[2] as int && Bounded(args) && Packed(args) == p[4..] {
        var args :| |args| == p[2] as int && Bounded(args) && Packed(args) == p[4..];
        StringsOfPacked(args);
      }
    }
  }

  ghost predicate Bounded(args: seq<seq<byte>>) {
    forall i :: 0 <= i < |args| ==> |args[i]| < 0x100
  }
}
