/** How a datagram message is refused: the first faulty field, read off a table of fields, decides the error. */
module DatagramFaults {
  import opened Wrappers
  import opened Bytes
  import opened Datagram
  import opened WireLayout

  datatype Field = Fixed(width: nat) | Bounded(maximum: nat) | Identifier | FlagByte

  /** How many bytes the field takes from the front, or why it does not stand there. */
  ghost function Extent(f: Field, s: seq<byte>): Result<nat, Error> {
    match f
    case Fixed(width) => if |s| < width then Err(MalformedFrame) else Ok(width)
    case FlagByte => if s == [] || s[0] > 1 then Err(MalformedFrame) else Ok(1)
    case Bounded(maximum) =>
      if |s| < 2 then Err(MalformedFrame)
      else if Number16(s, 0) > maximum then Err(LimitExceeded)
      else if |s| < 2 + Number16(s, 0) then Err(MalformedFrame)
      else Ok(2 + Number16(s, 0))
    case Identifier =>
      if |s| < 2 then Err(MalformedFrame)
      else if !(1 <= Number16(s, 0) <= 256) then Err(InvalidIdentifier)
      else if |s| < 2 + Number16(s, 0) then Err(MalformedFrame)
      else if exists i :: 2 <= i < 2 + Number16(s, 0) && !(0x21 <= s[i] <= 0x7e) then Err(InvalidIdentifier)
      else Ok(2 + Number16(s, 0))
  }

  /** The first faulty field of a message that must be exactly these fields. */
  ghost function Fault(fields: seq<Field>, s: seq<byte>): Option<Error> {
    if fields == [] then (if s == [] then None else Some(MalformedFrame))
    else
      var n := Extent(fields[0], s);
      if n.Err? then Some(n.error) else if n.value <= |s| then Fault(fields[1..], s[n.value..]) else Some(MalformedFrame)
  }

  ghost const IDS := [Identifier, Identifier]
  ghost const PORTS := [Fixed(2), Fixed(2), Fixed(1)]
  ghost const BODIES := [Bounded(1024), Bounded(59 * 1024)]

  /** Reading `r` from the front of `s` agrees with what follows in the table. */
  ghost predicate Agrees<T>(fields: seq<Field>, rest: seq<Field>, s: seq<byte>, r: Result<T, Error>, after: T -> seq<byte>) {
    Fault(fields + rest, s) == if r.Err? then Some(r.error) else Fault(rest, after(r.value))
  }

  lemma FaultCons(f: Field, rest: seq<Field>, s: seq<byte>)
    ensures Extent(f, s).Ok? ==> Extent(f, s).value <= |s|
    ensures Fault([f] + rest, s) == if Extent(f, s).Err? then Some(Extent(f, s).error) else Fault(rest, s[Extent(f, s).value..])
  {
    assert ([f] + rest)[1..] == rest;
  }

  lemma Number16Read(s: seq<byte>)
    requires |s| >= 2
    ensures TakeNumber(s, 2) == Ok((Number16(s, 0), s[2..]))
  {
    var t := s[..2];
    assert FromBe(t) == FromBe(t[..1]) * 256 + t[1] && FromBe(t[..1]) == FromBe(t[..1][..0]) * 256 + t[0];
  }

  lemma TakeFault(s: seq<byte>, n: nat, rest: seq<Field>)
    ensures Agrees([Fixed(n)], rest, s, Take(s, n), (v: (seq<byte>, seq<byte>)) => v.1)
  {
    FaultCons(Fixed(n), rest, s);
  }

  lemma NumberFault(s: seq<byte>, n: nat, rest: seq<Field>)
    ensures Agrees([Fixed(n)], rest, s, TakeNumber(s, n), (v: (nat, seq<byte>)) => v.1)
  {
    FaultCons(Fixed(n), rest, s);
  }

  lemma BytesFault(s: seq<byte>, maximum: nat, rest: seq<Field>)
    ensures Agrees([Bounded(maximum)], rest, s, TakeBytes(s, maximum), (v: (seq<byte>, seq<byte>)) => v.1)
  {
    hide TakeNumber, Fault, Number16;
    FaultCons(Bounded(maximum), rest, s);
    if |s| >= 2 {
      Number16Read(s);
      var n := Number16(s, 0);
      if n <= |s| - 2 { assert s[2..][n..] == s[2 + n..]; }
    } else {
      ShortNumber(s);
    }
  }

  lemma ShortNumber(s: seq<byte>)
    requires |s| < 2
    ensures TakeNumber(s, 2) == Err(MalformedFrame)
  {
  }

  lemma IdFault(s: seq<byte>, rest: seq<Field>)
    ensures Agrees([Identifier], rest, s, TakeId(s), (v: (seq<byte>, seq<byte>)) => v.1)
  {
    hide TakeNumber, Fault, Number16;
    FaultCons(Identifier, rest, s);
    if |s| >= 2 {
      Number16Read(s);
      var n := Number16(s, 0);
      if 1 <= n <= 256 && n <= |s| - 2 {
        assert s[2..][n..] == s[2 + n..];
        var id := s[2..][..n];
        assert forall i :: 0 <= i < n ==> id[i] == s[i + 2];
        assert forall i :: 2 <= i < n + 2 ==> s[i] == id[i - 2];
      }
    } else {
      ShortNumber(s);
    }
  }

  lemma IdsFault(s: seq<byte>, rest: seq<Field>)
    ensures Agrees(IDS, rest, s, TakeIds(s), (v: (seq<byte>, seq<byte>, seq<byte>)) => v.2)
  {
    hide TakeId, Fault;
    assert IDS + rest == [Identifier] + ([Identifier] + rest);
    IdFault(s, [Identifier] + rest);
    if TakeId(s).Ok? { IdFault(TakeId(s).value.1, rest); }
  }

  lemma BodiesFault(s: seq<byte>, rest: seq<Field>)
    ensures Agrees(BODIES, rest, s, TakeBodies(s), (v: (seq<byte>, seq<byte>, seq<byte>)) => v.2)
  {
    hide TakeBytes, Fault;
    assert BODIES + rest == [Bounded(1024)] + ([Bounded(59 * 1024)] + rest);
    BytesFault(s, 1024, [Bounded(59 * 1024)] + rest);
    if TakeBytes(s, 1024).Ok? { BytesFault(TakeBytes(s, 1024).value.1, 59 * 1024, rest); }
  }

  lemma PortsFault(s: seq<byte>, rest: seq<Field>)
    ensures Agrees(PORTS, rest, s, TakePorts(s), (v: (u16, u16, byte, seq<byte>)) => v.3)
  {
    hide TakeNumber, Fault;
    assert PORTS + rest == [Fixed(2)] + ([Fixed(2)] + ([Fixed(1)] + rest));
    NumberFault(s, 2, [Fixed(2)] + ([Fixed(1)] + rest));
    if TakeNumber(s, 2).Ok? {
      var t := TakeNumber(s, 2).value.1;
      NumberFault(t, 2, [Fixed(1)] + rest);
      if TakeNumber(t, 2).Ok? { NumberFault(TakeNumber(t, 2).value.1, 1, rest); }
    }
  }

  lemma NothingLeft<T>(m: T, s: seq<byte>)
    ensures Fault([], s) == Refusal(Finished(m, s))
  {
  }

  ghost function Refusal<T>(r: Result<T, Error>): Option<Error> { if r.Ok? then None else Some(r.error) }

  lemma ReceiveFault(s: seq<byte>)
    ensures Refusal(DecodeReceive(s)) == Fault(IDS, s)
  {
    hide TakeIds, Fault;
    IdsFault(s, []);
    assert IDS + [] == IDS;
    if TakeIds(s).Ok? { NothingLeft(Receive(TakeIds(s).value.0, TakeIds(s).value.1), TakeIds(s).value.2); }
  }

  lemma SendFault(s: seq<byte>)
    ensures Refusal(DecodeSend(s)) == Fault(IDS + ([Fixed(32)] + (PORTS + BODIES)), s)
  {
    hide TakeIds, Take, TakePorts, TakeBodies, Fault;
    IdsFault(s, [Fixed(32)] + (PORTS + BODIES));
    if TakeIds(s).Ok? {
      var a := TakeIds(s).value.2;
      TakeFault(a, 32, PORTS + BODIES);
      if Take(a, 32).Ok? {
        TakeExact(a, 32, Take(a, 32).value.0, Take(a, 32).value.1);
        TailFault(Take(a, 32).value.1);
      }
    }
  }

  /** Ports, then options and payload, then nothing. */
  lemma TailFault(s: seq<byte>)
    ensures TakePorts(s).Err? ==> Fault(PORTS + BODIES, s) == Some(TakePorts(s).error)
    ensures TakePorts(s).Ok? ==> Fault(PORTS + BODIES, s) == BodiesRefusal(TakePorts(s).value.3)
  {
    hide TakePorts, TakeBodies, Fault;
    PortsFault(s, BODIES);
    if TakePorts(s).Ok? { BodiesEnd(TakePorts(s).value.3); }
  }

  ghost function BodiesRefusal(s: seq<byte>): Option<Error> {
    if TakeBodies(s).Err? then Some(TakeBodies(s).error)
    else if TakeBodies(s).value.2 == [] then None else Some(MalformedFrame)
  }

  lemma BodiesEnd(s: seq<byte>)
    ensures Fault(BODIES, s) == BodiesRefusal(s)
  {
    hide TakeBodies, Fault;
    BodiesFault(s, []);
    assert BODIES + [] == BODIES;
    if TakeBodies(s).Ok? { NothingLeft((), TakeBodies(s).value.2); }
  }

  /** Which requests are refused, and how. */
  lemma RequestRefusal(s: seq<byte>)
    ensures Refusal(DecodeRequest(s)) ==
      if |s| < 5 || s[..4] != Ascii("IDG1") then Some(MalformedFrame)
      else if s[4] == 1 then Fault(IDS + ([Fixed(32)] + (PORTS + BODIES)), s[5..])
      else if s[4] == 2 then Fault(IDS, s[5..])
      else Some(MalformedFrame)
  {
    hide DecodeSend, DecodeReceive, Fault;
    assert REQUEST_MAGIC == Ascii("IDG1");
    if |s| >= 5 {
      assert s[4..][1..] == s[5..];
      SendFault(s[5..]);
      ReceiveFault(s[5..]);
    }
  }

  lemma EventFault(s: seq<byte>)
    ensures Refusal(DecodeEvent(s)) == Fault([Fixed(32)] + ([FlagByte] + (PORTS + ([Fixed(8)] + BODIES))), s)
  {
    hide Take, TakeByte, TakePorts, TakeNumber, TakeBodies, Fault;
    TakeFault(s, 32, [FlagByte] + (PORTS + ([Fixed(8)] + BODIES)));
    if Take(s, 32).Ok? {
      var a := Take(s, 32).value.1;
      TakeExact(s, 32, Take(s, 32).value.0, a);
      FaultCons(FlagByte, PORTS + ([Fixed(8)] + BODIES), a);
      ByteRead(a);
      if a != [] && a[0] <= 1 {
        PortsFault(a[1..], [Fixed(8)] + BODIES);
        if TakePorts(a[1..]).Ok? { TimedFault(TakePorts(a[1..]).value.3); }
      }
    }
  }

  lemma ByteRead(s: seq<byte>)
    ensures TakeByte(s) == if s == [] then Err(MalformedFrame) else Ok((s[0], s[1..]))
  {
  }

  lemma TimedFault(s: seq<byte>)
    ensures TakeNumber(s, 8).Err? ==> Fault([Fixed(8)] + BODIES, s) == Some(TakeNumber(s, 8).error)
    ensures TakeNumber(s, 8).Ok? ==> Fault([Fixed(8)] + BODIES, s) == BodiesRefusal(TakeNumber(s, 8).value.1)
  {
    hide TakeNumber, TakeBodies, Fault;
    NumberFault(s, 8, BODIES);
    if TakeNumber(s, 8).Ok? { BodiesEnd(TakeNumber(s, 8).value.1); }
  }

  /** Which replies are refused, and how. */
  lemma ReplyRefusal(s: seq<byte>)
    ensures Refusal(DecodeReply(s)) ==
      if |s| < 5 || s[..4] != Ascii("IDR1") then Some(MalformedFrame)
      else if s[4] == 2 then Fault([Fixed(32)] + ([FlagByte] + (PORTS + ([Fixed(8)] + BODIES))), s[5..])
      else if s[4] in {1, 3, 4} then Fault([], s[5..])
      else Some(MalformedFrame)
  {
    hide DecodeEvent;
    assert REPLY_MAGIC == Ascii("IDR1");
    if |s| >= 5 {
      assert s[4..][1..] == s[5..];
      EventFault(s[5..]);
    }
  }
}
