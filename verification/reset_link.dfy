/**
 * The user reference inside a password-reset link:
 * `urlsafe_base64_encode(force_bytes(user.pk))` on the way out and
 * `force_str(urlsafe_base64_decode(uid))` followed by the integer key lookup
 * on the way back.
 */
module ResetLink {
  import opened Wrappers
  import Decimal
  import Base64Url

  /** `force_bytes` of a digit string: one ASCII byte per digit. */
  function DigitBytes(s: string): (bs: seq<Base64Url.Byte>)
    requires Decimal.AllDigits(s)
    ensures |bs| == |s|
    ensures forall i :: 0 <= i < |s| ==> bs[i] == s[i] as int
  {
    seq(|s|, i requires 0 <= i < |s| => s[i] as int)
  }

  predicate IsDigitByte(b: Base64Url.Byte) {
    48 <= b <= 57
  }

  /** `force_str` of bytes that are all ASCII digits. */
  function DigitText(bs: seq<Base64Url.Byte>): (s: string)
    requires forall i :: 0 <= i < |bs| ==> IsDigitByte(bs[i])
    ensures |s| == |bs|
    ensures forall i :: 0 <= i < |bs| ==> s[i] as int == bs[i]
    ensures Decimal.AllDigits(s)
  {
    var s := seq(|bs|, i requires 0 <= i < |bs| => bs[i] as char);
    forall i | 0 <= i < |bs|
      ensures Decimal.IsDigit(s[i])
    {
      assert s[i] as int == bs[i] && IsDigitByte(bs[i]);
    }
    s
  }

  /** The `uid` query parameter of the reset link for user `pk`. */
  function EncodeUid(pk: nat): (uid: string)
    ensures uid != ""
    ensures forall i :: 0 <= i < |uid| ==> Base64Url.IsUrlSafe(uid[i])
  {
    Base64Url.Encode(DigitBytes(Decimal.NatToString(pk)))
  }

  /**
   * The key a `uid` names, or `None` when it does not decode or does not
   * decode to a non-empty digit string.
   */
  function DecodeUid(uid: string): (r: Option<nat>)
    ensures r.Some? ==> Base64Url.Decode(uid).Some?
  {
    match Base64Url.Decode(uid)
    case None => None
    case Some(bs) =>
      if |bs| > 0 && forall i :: 0 <= i < |bs| ==> IsDigitByte(bs[i])
      then Some(Decimal.ParseDigits(DigitText(bs)))
      else None
  }

  /** The key decoded on confirmation is the key encoded on request. */
  lemma DecodeEncodeUid(pk: nat)
    ensures DecodeUid(EncodeUid(pk)) == Some(pk)
  {
    var s := Decimal.NatToString(pk);
    var bs := DigitBytes(s);
    Base64Url.DecodeEncode(bs);
    assert DigitText(bs) == s;
    Decimal.ParseNatToString(pk);
  }

  /** Different users never share a link reference. */
  lemma EncodeUidInjective(a: nat, b: nat)
    ensures EncodeUid(a) == EncodeUid(b) ==> a == b
  {
    DecodeEncodeUid(a);
    DecodeEncodeUid(b);
  }
}
