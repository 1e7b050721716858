/** Signature verification: the request's timestamp, re-rendered as
    "yyyyMMddHHmmss", is concatenated with the partner key, the partner
    reference number, the decimal total and the partner's secret; the
    Base64 of the SHA-256 of that string's UTF-8 bytes must equal the
    submitted signature with surrounding white space removed. */
module SignatureHelper {
  import opened Wrappers
  import opened Strings
  import opened Numerals
  import opened Calendar
  import opened Models

  newtype byte = x: int | 0 <= x < 256

  /** The library functions the verifier calls, taken as given: no property
      of them is assumed. */
  datatype Crypto = Crypto(
    utf8: string -> seq<byte>,            // Encoding.UTF8.GetBytes
    sha256: seq<byte> -> seq<byte>,       // SHA256.ComputeHash
    base64: seq<byte> -> string)          // Convert.ToBase64String

  /** C# string concatenation reads a null operand as the empty string. */
  function OrEmpty(s: Option<string>): (r: string)
    ensures s.Some? ==> r == s.value
    ensures s.None? ==> r == []
  {
    if s.Some? then s.value else []
  }

  /** The canonical message: stamp, partner key, reference number, decimal
      total and secret, in that order and with no separators. */
  function CanonicalMessage(stamp: ValidDateTime, request: TransactionRequest, secret: string): (msg: string)
  {
    Format14(stamp) + OrEmpty(request.partnerkey) + OrEmpty(request.partnerrefno) +
    Decimal(request.totalamount) + secret
  }

  /** The message lays its five parts end to end: each can be cut back out
      at the offsets the lengths of the earlier ones give. */
  lemma CanonicalMessageLayout(stamp: ValidDateTime, request: TransactionRequest, secret: string)
    ensures var msg := CanonicalMessage(stamp, request, secret);
      var key, refno, total := OrEmpty(request.partnerkey), OrEmpty(request.partnerrefno),
                               Decimal(request.totalamount);
      var a := 14 + |key|;
      var b := a + |refno|;
      var c := b + |total|;
      |msg| == c + |secret| &&
      msg[..14] == Format14(stamp) && AllDigits(msg[..14]) &&
      msg[14..a] == key && msg[a..b] == refno && msg[b..c] == total && msg[c..] == secret
  {
  }

  /** The signature a request must carry for a given stamp and secret. */
  function ExpectedSignature(stamp: ValidDateTime, request: TransactionRequest,
                             secret: string, crypto: Crypto): string
  {
    crypto.base64(crypto.sha256(crypto.utf8(CanonicalMessage(stamp, request, secret))))
  }

  /** `VerifySignature(request, secret)`. `DateTime.Parse` throws on a null or
      unreadable timestamp instead of returning false, and `Trim()` on a null
      signature throws; the verdict is reached only when both are present. */
  function VerifySignature(request: TransactionRequest, secret: string,
                           parse: DateParser, crypto: Crypto): (r: Try<bool>)
    ensures request.timestamp.None? ==> r == Throws(ArgumentNull)
    ensures request.timestamp.Some? && parse(request.timestamp.value).None? ==>
              r == Throws(FormatError)
    ensures request.timestamp.Some? && parse(request.timestamp.value).Some? && request.sig.None? ==>
              r == Throws(NullReference)
    ensures r.Returns? <==> request.timestamp.Some? &&
                            parse(request.timestamp.value).Some? && request.sig.Some?
    ensures r.Returns? ==>
              (r.value <==> Trim(request.sig.value) ==
                            ExpectedSignature(parse(request.timestamp.value).value, request, secret, crypto))
  {
    if request.timestamp.None? then Throws(ArgumentNull)
    else match parse(request.timestamp.value)
      case None => Throws(FormatError)
      case Some(stamp) =>
        var expected := ExpectedSignature(stamp, request, secret, crypto);
        if request.sig.None? then Throws(NullReference)
        else Returns(expected == Trim(request.sig.value))
  }

  /** White space around the submitted signature never changes the verdict. */
  lemma SignaturePaddingIgnored(request: TransactionRequest, left: string, right: string,
                                secret: string, parse: DateParser, crypto: Crypto)
    requires request.sig.Some? && AllWhiteSpace(left) && AllWhiteSpace(right)
    ensures VerifySignature(request.(sig := Some(left + request.sig.value + right)), secret, parse, crypto)
         == VerifySignature(request, secret, parse, crypto)
  {
    TrimIgnoresPadding(left, request.sig.value, right);
  }

  /** The verdict depends on the secret passed in, never on the password the
      request carries. */
  lemma SignatureIgnoresPassword(request: TransactionRequest, password: Option<string>,
                                 secret: string, parse: DateParser, crypto: Crypto)
    ensures VerifySignature(request.(partnerpassword := password), secret, parse, crypto)
         == VerifySignature(request, secret, parse, crypto)
  {
  }

  /** Only the whole seconds of the timestamp are signed: two timestamps
      whose instants share a stamp give the same verdict, and such instants
      are less than a second apart. */
  lemma SignatureIgnoresSubSecond(request: TransactionRequest, other: string,
                                  secret: string, parse: DateParser, crypto: Crypto)
    requires request.timestamp.Some?
    requires parse(request.timestamp.value).Some? && parse(other).Some?
    requires Format14(parse(request.timestamp.value).value) == Format14(parse(other).value)
    ensures VerifySignature(request.(timestamp := Some(other)), secret, parse, crypto)
         == VerifySignature(request, secret, parse, crypto)
    ensures var a, b := parse(request.timestamp.value).value, parse(other).value;
            -(TicksPerSecond as int) < a.Ticks() - b.Ticks() < TicksPerSecond
  {
    SameStampWithinOneSecond(parse(request.timestamp.value).value, parse(other).value);
  }

  /** With no separator between the reference number and the total, moving a
      digit across that boundary leaves the signed message unchanged:
      reference "INV1" with total 23 signs exactly like "INV12" with total 3. */
  lemma ReferenceTotalBoundaryUnsigned(request: TransactionRequest, stamp: ValidDateTime, secret: string)
    requires request.partnerrefno == Some("INV1") && request.totalamount == 23
    ensures CanonicalMessage(stamp, request.(partnerrefno := Some("INV12"), totalamount := 3), secret)
         == CanonicalMessage(stamp, request, secret)
  {
    var p := Format14(stamp) + OrEmpty(request.partnerkey);
    assert Decimal(23) == "23" && Decimal(3) == "3";
    assert p + "INV1" + "23" == p + "INV12" + "3";
  }
}
