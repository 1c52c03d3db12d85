/** The NSS status vocabulary and the three entry points that only return a status. */
module Status {

  /** `enum NssStatus`. */
  datatype NssStatus = TryAgain | Unavail | NotFound | Success | Return {

    /** `NssStatus::to_c`: the integer handed back to the NSS dispatcher. */
    function ToC(): (c: int)
      ensures -2 <= c <= 2
      ensures c == 1 <==> this == Success
      ensures c == 0 <==> this == NotFound
    {
      match this
      case TryAgain => -2
      case Unavail => -1
      case NotFound => 0
      case Success => 1
      case Return => 2
    }
  }

  /** Decoding a status integer; the reference the encoding is checked against. */
  function FromC(c: int): (s: NssStatus)
    requires -2 <= c <= 2
  {
    if c == -2 then TryAgain
    else if c == -1 then Unavail
    else if c == 0 then NotFound
    else if c == 1 then Success
    else Return
  }

  /** Every status survives the round trip through its integer, so distinct statuses have distinct codes. */
  lemma ToCRoundTrip(s: NssStatus)
    ensures FromC(s.ToC()) == s
  {
  }

  lemma ToCInjective(s: NssStatus, t: NssStatus)
    requires s.ToC() == t.ToC()
    ensures s == t
  {
    ToCRoundTrip(s);
    ToCRoundTrip(t);
  }

  /** `_nss_multipasswd_setpwent`: always Success. */
  function SetPwEnt(): (c: int)
    ensures c == 1 && FromC(c) == Success
  {
    Success.ToC()
  }

  /** `_nss_multipasswd_endpwent`: always Success. */
  function EndPwEnt(): (c: int)
    ensures c == 1 && FromC(c) == Success
  {
    Success.ToC()
  }

  /** `_nss_multipasswd_getpwent_r`: enumeration is not supported, always Unavail. */
  function GetPwEntR(): (c: int)
    ensures c == -1 && FromC(c) == Unavail
  {
    Unavail.ToC()
  }
}
