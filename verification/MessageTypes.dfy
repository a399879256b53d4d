/** Application messages inside v2 packets (p2p.py, v2_p2p.py): message type identifiers. */
module MessageTypes {
  import opened Bytes

  datatype Message = Message(msgtype: bytes, payload: bytes)

  /** Any tables in place of SHORTID (identifier i names `shortIds[i - 1]`) and of the keys of MESSAGEMAP. */
  datatype Tables = Tables(shortIds: seq<bytes>, known: set<bytes>)

  /** `rstrip(b'\x00')` */
  function StripZeros(s: bytes): (r: bytes)
    ensures |r| <= |s| && r == s[..|r|]
    ensures r == [] || r[|r| - 1] != 0
    ensures forall i :: |r| <= i < |s| ==> s[i] == 0
  {
    if s == [] || s[|s| - 1] != 0 then s else StripZeros(s[..|s| - 1])
  }

  /** The plaintext that `build_message` hands to the packet layer. */
  function EncodeMessage(t: Tables, m: Message): bytes
    requires |t.shortIds| < 256
  {
    if m.msgtype in t.shortIds then [IndexOf(t.shortIds, m.msgtype) + 1] + m.payload
    else [0] + m.msgtype + Zeros(if |m.msgtype| < 12 then 12 - |m.msgtype| else 0) + m.payload
  }

  /** What `_on_data` makes of a plaintext; None stands for each of its exceptions. */
  function DecodeMessage(t: Tables, msg: bytes): (r: Option<Message>)
    ensures r.Some? ==> r.value.msgtype in t.known
  {
    if msg == [] then None
    else
      var r :=
        if msg[0] == 0 then
          if |msg| < 13 then None else Some(Message(StripZeros(msg[1..13]), msg[13..]))
        else if msg[0] <= |t.shortIds| then Some(Message(t.shortIds[msg[0] - 1], msg[1..]))
        else None;
      if r.Some? && r.value.msgtype in t.known then r else None
  }

  /** A plaintext starts with the number of the type in the table, counted from one; or with zero and the type in
      twelve bytes. The payload follows. */
  lemma EncodeLayout(t: Tables, m: Message)
    requires |t.shortIds| < 256
    ensures var e := EncodeMessage(t, m);
      && e != []
      && (m.msgtype in t.shortIds ==> 1 <= e[0] <= |t.shortIds| && t.shortIds[e[0] - 1] == m.msgtype && e[1..] == m.payload)
      && (m.msgtype !in t.shortIds && |m.msgtype| <= 12 ==>
            |e| >= 13 && e[0] == 0 && e[1..1 + |m.msgtype|] == m.msgtype && e[13..] == m.payload
            && forall i :: 1 + |m.msgtype| <= i < 13 ==> e[i] == 0)
  {}

  /** Every message of a known type of at most 12 bytes that does not end in NUL arrives as sent. */
  lemma MessageRoundTrip(t: Tables, m: Message)
    requires |t.shortIds| < 256 && m.msgtype in t.known
    requires m.msgtype in t.shortIds ||
             (|m.msgtype| <= 12 && (m.msgtype == [] || m.msgtype[|m.msgtype| - 1] != 0))
    ensures DecodeMessage(t, EncodeMessage(t, m)) == Some(m)
  {
    if m.msgtype !in t.shortIds {
      var e := EncodeMessage(t, m);
      var field := m.msgtype + Zeros(12 - |m.msgtype|);
      assert e[1..13] == field && e[13..] == m.payload;
      assert forall i :: |m.msgtype| <= i < 12 ==> field[i] == 0;
      assert m.msgtype != [] ==> field[|m.msgtype| - 1] != 0;
      assert StripZeros(field) == m.msgtype;
    }
  }
}
