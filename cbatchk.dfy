/** `AT+CBATCHK=<0|1>`: enable or disable the VBAT voltage check. */
module CbatChk {

  datatype EnableVBatCheck = EnableVBatCheck(enable: bool)

  const Prefix := "AT+CBATCHK="

  /** The request text: one of two fixed literals, chosen by the flag. */
  function Encode(req: EnableVBatCheck): (s: string)
    ensures |s| == 13 && |s| <= 256 && s[..|Prefix|] == Prefix && s[12] == '\r'
    ensures s[11] == (if req.enable then '1' else '0')
  {
    if req.enable then "AT+CBATCHK=1\r" else "AT+CBATCHK=0\r"
  }

  lemma EncodeEnable()
    ensures Encode(EnableVBatCheck(true)) == "AT+CBATCHK=1\r"
  {
  }

  lemma EncodeDisable()
    ensures Encode(EnableVBatCheck(false)) == "AT+CBATCHK=0\r"
  {
  }

  /** Different flags give different requests. */
  lemma EncodeInjective(a: EnableVBatCheck, b: EnableVBatCheck)
    requires Encode(a) == Encode(b)
    ensures a == b
  {
    assert Encode(a)[11] == Encode(b)[11];
  }
}
