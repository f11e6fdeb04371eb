/** `AT+CGNSURC=<n>`: report GNSS navigation info every `n` fixes (0 disables). */
module CgnsUrc {
  import opened Fmt

  datatype ConfigureGnssUrc = ConfigureGnssUrc(period: u8)

  const Prefix := "AT+CGNSURC="

  /** The request text: the prefix, the period in decimal, one carriage return. */
  function Encode(req: ConfigureGnssUrc): (s: string)
    ensures 13 <= |s| <= 15
    ensures s[..|Prefix|] == Prefix
    ensures AllDigits(s[|Prefix|..|s| - 1]) && DigitsValue(s[|Prefix|..|s| - 1]) == req.period
    ensures s[|Prefix|] != '0' || s[|Prefix|..|s| - 1] == "0"
    ensures s[|s| - 1] == '\r' && forall i :: 0 <= i < |s| - 1 ==> s[i] != '\r'
  {
    var digits := Dec(req.period);
    DecRoundTrip(req.period);
    DecWidth(req.period, 3);
    var s := Prefix + digits + "\r";
    assert s[|Prefix|..|s| - 1] == digits;
    s
  }

  /** Period 0, which switches reporting off. */
  lemma EncodeDisable()
    ensures Encode(ConfigureGnssUrc(0)) == "AT+CGNSURC=0\r"
  {
  }

  /** Different periods give different requests. */
  lemma EncodeInjective(a: ConfigureGnssUrc, b: ConfigureGnssUrc)
    requires Encode(a) == Encode(b)
    ensures a == b
  {
  }

  /** The request always fits the 256-byte `String`, so its `unwrap` cannot fail. */
  lemma EncodeFits(req: ConfigureGnssUrc)
    ensures |Encode(req)| <= 256 && IsAscii(Encode(req))
  {
    var s := Encode(req);
    forall i | 0 <= i < |s|
      ensures s[i] as int < 128
    {
      if |Prefix| <= i < |s| - 1 {
        assert s[i] == s[|Prefix|..|s| - 1][i - |Prefix|];
      }
    }
  }
}
