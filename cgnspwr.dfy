/** `AT+CGNSPWR=<0|1>`: switch the GNSS engine off or on. */
module CgnsPwr {

  datatype SetGnssPower = SetGnssPower(on: bool)

  const Prefix := "AT+CGNSPWR="

  /** The request text: the prefix, `1` for on or `0` for off, one carriage return. */
  function Encode(req: SetGnssPower): (s: string)
    ensures |s| == 13 && s[..|Prefix|] == Prefix && s[12] == '\r'
    ensures s[11] == (if req.on then '1' else '0')
  {
    var arg := if req.on then "1" else "0";
    Prefix + arg + "\r"
  }

  lemma EncodeOn()
    ensures Encode(SetGnssPower(true)) == "AT+CGNSPWR=1\r"
  {
  }

  lemma EncodeOff()
    ensures Encode(SetGnssPower(false)) == "AT+CGNSPWR=0\r"
  {
  }

  /** Different arguments give different requests. */
  lemma EncodeInjective(a: SetGnssPower, b: SetGnssPower)
    requires Encode(a) == Encode(b)
    ensures a == b
  {
    assert Encode(a)[11] == Encode(b)[11];
  }
}
