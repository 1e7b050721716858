/** The submission pipeline: required fields, partner authentication,
    signature, freshness, item reconciliation and pricing, run in that order
    with the first failing check deciding the response. */
module SubmitTrxMessageController {
  import opened Wrappers
  import opened Strings
  import opened Calendar
  import opened Models
  import opened DiscountHelper
  import opened SignatureHelper
  import opened TimeHelper

  /** The partner directory: partner key to shared secret. The secret is
      both the password a partner must send and the signing key. */
  const AllowedPartners: map<string, string> :=
    map["FAKEGOOGLE" := "RkFLRVBBU1NXT1JEMTIzNA==", "FAKEPEOPLE" := "RkFLRVBBU1NXT1JENTc4"]

  const AccessDenied: string := "Access Denied!"

  /** What `Submit` answers: a rejection with its HTTP status and message
      (`result = 0`), the priced transaction (`result = 1`, status 200), or
      an exception that escapes `Submit` uncaught. */
  datatype Outcome =
    | Rejected(status: int, message: string)
    | Accepted(totalamount: int, totaldiscount: int, finalamount: int)
    | Faulted(exception: Exception)
  {
    function Result(): (r: int)
      requires !Faulted?
      ensures r == 1 <==> Accepted?
      ensures r == 0 <==> Rejected?
    {
      if Accepted? then 1 else 0
    }
  }

  /** The required fields with their names, in the order they are tested. */
  function RequiredFields(request: TransactionRequest): seq<(string, Option<string>)> {
    [("partnerkey", request.partnerkey), ("partnerrefno", request.partnerrefno),
     ("partnerpassword", request.partnerpassword), ("timestamp", request.timestamp),
     ("sig", request.sig)]
  }

  /** The name of the first required field that is null or blank, if any. */
  function MissingField(request: TransactionRequest): (name: Option<string>)
    ensures var fields := RequiredFields(request);
      name.None? <==> forall i :: 0 <= i < |fields| ==> !IsNullOrWhiteSpace(fields[i].1)
    ensures var fields := RequiredFields(request);
      name.Some? ==> exists i :: 0 <= i < |fields| && fields[i].0 == name.value &&
                                 IsNullOrWhiteSpace(fields[i].1) &&
                                 forall j :: 0 <= j < i ==> !IsNullOrWhiteSpace(fields[j].1)
  {
    var fields := RequiredFields(request);
    assert fields[0].1 == request.partnerkey && fields[1].1 == request.partnerrefno &&
           fields[2].1 == request.partnerpassword && fields[3].1 == request.timestamp &&
           fields[4].1 == request.sig;
    if IsNullOrWhiteSpace(request.partnerkey) then Some("partnerkey")
    else if IsNullOrWhiteSpace(request.partnerrefno) then Some("partnerrefno")
    else if IsNullOrWhiteSpace(request.partnerpassword) then Some("partnerpassword")
    else if IsNullOrWhiteSpace(request.timestamp) then Some("timestamp")
    else if IsNullOrWhiteSpace(request.sig) then Some("sig")
    else None
  }

  /** Directory lookup plus exact password match; yields the stored secret. */
  function Authenticate(partnerkey: string, password: string): (secret: Option<string>)
    ensures secret.Some? <==> partnerkey in AllowedPartners && AllowedPartners[partnerkey] == password
    ensures secret.Some? ==> secret.value == password
  {
    if partnerkey in AllowedPartners && password == AllowedPartners[partnerkey]
    then Some(AllowedPartners[partnerkey]) else None
  }

  /** Only the two configured partners can ever authenticate. */
  lemma OnlyConfiguredPartners(partnerkey: string, password: string)
    requires Authenticate(partnerkey, password).Some?
    ensures partnerkey == "FAKEGOOGLE" || partnerkey == "FAKEPEOPLE"
  {
  }

  /** The unchecked 64-bit product wraps modulo 2^64 into the range of `long`. */
  function Wrap64(x: int): (r: Int64)
    ensures InInt64(x) ==> r == x
    ensures (x - r) % 0x1_0000_0000_0000_0000 == 0
  {
    var m := x % 0x1_0000_0000_0000_0000;
    if m < 0x8000_0000_0000_0000 then m else m - 0x1_0000_0000_0000_0000
  }

  /** `i.qty * i.unitprice`, evaluated in unchecked `long` arithmetic. */
  function Subtotal(item: ItemDetail): Int64 {
    Wrap64(item.qty * item.unitprice)
  }

  /** The exact sum of the (wrapped) subtotals. */
  function SubtotalSum(items: seq<ItemDetail>): int {
    if items == [] then 0 else Subtotal(items[0]) + SubtotalSum(items[1..])
  }

  /** The exact sum of the products, with no wrapping at all. */
  function ItemsAmount(items: seq<ItemDetail>): int {
    if items == [] then 0 else items[0].qty * items[0].unitprice + ItemsAmount(items[1..])
  }

  lemma PrefixStep(items: seq<ItemDetail>, k: nat)
    requires 1 <= k <= |items|
    ensures SubtotalSum(items[..k]) == Subtotal(items[0]) + SubtotalSum(items[1..][..k - 1])
  {
    assert items[..k][0] == items[0];
    assert items[..k][1..] == items[1..][..k - 1];
  }

  /** `Enumerable.Sum` over `long`: a checked running sum from the left,
      throwing `OverflowException` the first time a partial sum leaves the
      range of `long`. */
  function CheckedSum(acc: Int64, items: seq<ItemDetail>): (r: Try<Int64>)
    ensures r.Throws? ==> r.exception == Overflow
    ensures r.Returns? <==> forall k :: 1 <= k <= |items| ==> InInt64(acc + SubtotalSum(items[..k]))
    ensures r.Returns? ==> r.value == acc + SubtotalSum(items)
    decreases |items|
  {
    if items == [] then Returns(acc)
    else
      var s := acc + Subtotal(items[0]);
      PrefixSteps(acc, items);
      if !InInt64(s) then Throws(Overflow)
      else CheckedSum(s, items[1..])
  }

  /** The partial sums of `items` from `acc` are the first subtotal followed
      by the partial sums of the rest. */
  lemma PrefixSteps(acc: int, items: seq<ItemDetail>)
    requires items != []
    ensures InInt64(acc + SubtotalSum(items[..1])) <==> InInt64(acc + Subtotal(items[0]))
    ensures (forall k :: 1 <= k <= |items| ==> InInt64(acc + SubtotalSum(items[..k]))) <==>
            InInt64(acc + Subtotal(items[0])) &&
            forall k :: 1 <= k <= |items[1..]| ==>
              InInt64(acc + Subtotal(items[0]) + SubtotalSum(items[1..][..k]))
  {
    var s := acc + Subtotal(items[0]);
    forall k | 1 <= k <= |items|
      ensures acc + SubtotalSum(items[..k]) == s + SubtotalSum(items[1..][..k - 1])
    {
      PrefixStep(items, k);
    }
    assert items[1..][..0] == [];
    if forall k :: 1 <= k <= |items| ==> InInt64(acc + SubtotalSum(items[..k])) {
      forall k | 1 <= k <= |items[1..]|
        ensures InInt64(s + SubtotalSum(items[1..][..k]))
      {
        assert acc + SubtotalSum(items[..k + 1]) == s + SubtotalSum(items[1..][..k]);
      }
    }
  }

  /** `request.items.Sum(i => i.qty * i.unitprice)`. */
  function ItemsTotal(items: seq<ItemDetail>): Try<Int64> {
    CheckedSum(0, items)
  }

  /** When no product wraps, the subtotals add up to the exact amount. */
  lemma {:induction false} SubtotalSumExact(items: seq<ItemDetail>)
    requires forall i :: 0 <= i < |items| ==> InInt64(items[i].qty * items[i].unitprice)
    ensures SubtotalSum(items) == ItemsAmount(items)
  {
    if items != [] {
      SubtotalSumExact(items[1..]);
    }
  }

  /** The checks on one item, in order: reference, name (the message names
      the item's reference), quantity at least 1, unit price positive. */
  function ItemError(item: ItemDetail): (message: Option<string>)
    ensures message.None? <==> !IsNullOrWhiteSpace(item.partneritemref) &&
                               !IsNullOrWhiteSpace(item.name) && item.qty >= 1 && item.unitprice > 0
  {
    if IsNullOrWhiteSpace(item.partneritemref) then Some("partneritemref is Required.")
    else if IsNullOrWhiteSpace(item.name) then Some("name for " + item.partneritemref.value + " is Required.")
    else if item.qty < 1 then Some("quantity must be more than 0")
    else if item.unitprice <= 0 then Some("unitprice must be positive.")
    else None
  }

  /** The position of the first item that fails a check (`|items|` when none
      does): the `foreach` stops there. */
  function FirstInvalidItem(items: seq<ItemDetail>): (k: nat)
    ensures k <= |items|
    ensures forall j :: 0 <= j < k ==> ItemError(items[j]).None?
    ensures k < |items| ==> ItemError(items[k]).Some?
  {
    if items == [] || ItemError(items[0]).Some? then 0
    else 1 + FirstInvalidItem(items[1..])
  }

  /** The item phase for a non-empty list: reconcile the sum with the total,
      then check the items in order. `None` lets pricing go ahead. */
  function ItemsOutcome(items: seq<ItemDetail>, totalamount: Int64): Option<Outcome> {
    match ItemsTotal(items)
    case Throws(e) => Some(Faulted(e))
    case Returns(sum) =>
      if sum != totalamount then Some(Rejected(400, "Invalid Total Amount."))
      else
        var k := FirstInvalidItem(items);
        if k < |items| then Some(Rejected(400, ItemError(items[k]).value)) else None
  }

  /** The response for a request that passed every check. */
  function Price(totalamount: Int64): (r: Outcome)
    ensures r.Accepted? && r.totalamount == totalamount
    ensures r.totaldiscount == Discount(totalamount)
    ensures r.finalamount == r.totalamount - r.totaldiscount
    ensures totalamount >= 0 ==> 0 <= r.totaldiscount <= totalamount / 5 && r.finalamount >= 0
    ensures totalamount < 0 ==> totalamount < r.totaldiscount <= 0 && totalamount <= r.finalamount < 0
  {
    DiscountWithinTotal(totalamount);
    var discount := Discount(totalamount);
    Accepted(totalamount, discount, totalamount - discount)
  }

  /** `Submit`: `now` is the clock reading, `parse` the date parser and
      `crypto` the hashing and encoding functions. */
  function Submit(request: TransactionRequest, now: ValidDateTime,
                  parse: DateParser, crypto: Crypto): (r: Outcome)
    ensures r.Rejected? ==> r.status == 400 || r.status == 401
    ensures r.Rejected? && r.status == 401 ==>
              r.message == AccessDenied && MissingField(request).None?
    ensures r.Faulted? ==> r.exception == FormatError || r.exception == Overflow
  {
    match MissingField(request)
    case Some(name) => Rejected(400, name + " is Required.")
    case None =>
      match Authenticate(request.partnerkey.value, request.partnerpassword.value)
      case None => Rejected(401, AccessDenied)
      case Some(secret) =>
        match VerifySignature(request, secret, parse, crypto)
        case Throws(e) => Faulted(e)
        case Returns(false) => Rejected(401, AccessDenied)
        case Returns(true) =>
          if !IsTimestampValid(request.timestamp, now, parse) then Rejected(400, "Expired.")
          else if request.items.Some? && |request.items.value| > 0 then
            match ItemsOutcome(request.items.value, request.totalamount)
            case Some(outcome) => outcome
            case None => Price(request.totalamount)
          else Price(request.totalamount)
  }

  /** Every required field is present and non-blank. */
  predicate FieldsPresent(request: TransactionRequest) {
    !IsNullOrWhiteSpace(request.partnerkey) && !IsNullOrWhiteSpace(request.partnerrefno) &&
    !IsNullOrWhiteSpace(request.partnerpassword) && !IsNullOrWhiteSpace(request.timestamp) &&
    !IsNullOrWhiteSpace(request.sig)
  }

  /** The first blank required field decides the answer, whatever the clock,
      parser or hashing functions: no later check runs. */
  lemma MissingFieldFirst(request: TransactionRequest, now: ValidDateTime,
                          parse: DateParser, crypto: Crypto)
    requires MissingField(request).Some?
    ensures Submit(request, now, parse, crypto) ==
            Rejected(400, MissingField(request).value + " is Required.")
  {
  }

  /** An unknown partner key or a wrong password is refused with 401 before
      the signature is looked at, so the signature and the timestamp cannot
      change that answer. */
  lemma AccessDeniedBeforeSignature(request: TransactionRequest, now: ValidDateTime,
                                    parse: DateParser, crypto: Crypto)
    requires FieldsPresent(request)
    requires request.partnerkey.value !in AllowedPartners ||
             request.partnerpassword.value != AllowedPartners[request.partnerkey.value]
    ensures Submit(request, now, parse, crypto) == Rejected(401, AccessDenied)
  {
  }

  /** With valid credentials and a readable timestamp, a signature that does
      not match the one computed from the stored secret gets the same 401 as
      bad credentials. */
  lemma TamperedSignatureDenied(request: TransactionRequest, now: ValidDateTime,
                                parse: DateParser, crypto: Crypto)
    requires FieldsPresent(request)
    requires Authenticate(request.partnerkey.value, request.partnerpassword.value).Some?
    requires parse(request.timestamp.value).Some?
    requires Trim(request.sig.value) !=
             ExpectedSignature(parse(request.timestamp.value).value, request,
                               AllowedPartners[request.partnerkey.value], crypto)
    ensures Submit(request, now, parse, crypto) == Rejected(401, AccessDenied)
  {
  }

  /** An authenticated request whose timestamp cannot be read makes
      `DateTime.Parse` throw in the signature check; nothing catches it. */
  lemma UnreadableTimestampFaults(request: TransactionRequest, now: ValidDateTime,
                                  parse: DateParser, crypto: Crypto)
    requires FieldsPresent(request)
    requires Authenticate(request.partnerkey.value, request.partnerpassword.value).Some?
    requires parse(request.timestamp.value).None?
    ensures Submit(request, now, parse, crypto) == Faulted(FormatError)
  {
  }

  /** "Expired." is answered only to an authenticated request with a
      correct signature and a readable timestamp more than five minutes away
      from the clock: the freshness check's own parse failure path is never
      reached from `Submit`. */
  lemma ExpiredOnlyWhenStale(request: TransactionRequest, now: ValidDateTime,
                             parse: DateParser, crypto: Crypto)
    requires Submit(request, now, parse, crypto) == Rejected(400, "Expired.")
    ensures FieldsPresent(request)
    ensures Authenticate(request.partnerkey.value, request.partnerpassword.value).Some?
    ensures VerifySignature(request, AllowedPartners[request.partnerkey.value], parse, crypto)
            == Returns(true)
    ensures parse(request.timestamp.value).Some?
    ensures Duration(now.Ticks(), parse(request.timestamp.value).value.Ticks()) > FiveMinutes
  {
    ItemsNeverExpired(request.items, request.totalamount);
  }

  /** No answer of the item phase reads "Expired.": every one of its
      messages is longer. */
  lemma ItemsNeverExpired(items: Option<seq<ItemDetail>>, totalamount: Int64)
    ensures items.Some? && |items.value| > 0 ==>
              ItemsOutcome(items.value, totalamount) != Some(Rejected(400, "Expired."))
  {
    if items.Some? && |items.value| > 0 {
      var k := FirstInvalidItem(items.value);
      if k < |items.value| {
        var m := ItemError(items.value[k]).value;
        assert |m| > |"Expired."|;
      }
    }
  }

  /** With no items (null or an empty list) nothing about items is checked:
      a request passing the earlier checks is priced directly. */
  lemma NoItemsPricedDirectly(request: TransactionRequest, now: ValidDateTime,
                              parse: DateParser, crypto: Crypto)
    requires request.items.None? || request.items == Some([])
    requires FieldsPresent(request)
    requires Authenticate(request.partnerkey.value, request.partnerpassword.value).Some?
    requires VerifySignature(request, AllowedPartners[request.partnerkey.value], parse, crypto)
             == Returns(true)
    requires IsTimestampValid(request.timestamp, now, parse)
    ensures Submit(request, now, parse, crypto) == Price(request.totalamount)
  {
  }

  /** The reconciliation runs before any per-item check: when the products
      do not add up to the declared total, the answer is "Invalid Total
      Amount." even if some item is itself invalid. */
  lemma MismatchBeforeItemChecks(items: seq<ItemDetail>, totalamount: Int64)
    requires items != []
    requires forall k :: 1 <= k <= |items| ==> InInt64(SubtotalSum(items[..k]))
    requires forall i :: 0 <= i < |items| ==> InInt64(items[i].qty * items[i].unitprice)
    requires ItemsAmount(items) != totalamount
    ensures ItemsOutcome(items, totalamount) == Some(Rejected(400, "Invalid Total Amount."))
  {
    SubtotalSumExact(items);
  }

  /** When the sum matches, the first failing item, and within it the first
      failing check, is reported; with every item valid, pricing goes ahead. */
  lemma FirstInvalidItemReported(items: seq<ItemDetail>, totalamount: Int64)
    requires ItemsTotal(items) == Returns(totalamount)
    ensures var k := FirstInvalidItem(items);
      ItemsOutcome(items, totalamount) ==
        if k < |items| then Some(Rejected(400, ItemError(items[k]).value)) else None
  {
  }

  /** A product of positive factors adds a positive amount, so a list of
      valid items whose products fit in a `long` sums to a positive total. */
  lemma {:induction false} ValidItemsPositive(items: seq<ItemDetail>)
    requires items != []
    requires forall i :: 0 <= i < |items| ==> ItemError(items[i]).None?
    ensures ItemsAmount(items) > 0
  {
    var q, p := items[0].qty, items[0].unitprice;
    assert ItemError(items[0]).None?;
    assert q * p >= p by {
      assert q * p == (q - 1) * p + p;
      assert (q - 1) * p >= 0;
    }
    if |items| > 1 {
      ValidItemsPositive(items[1..]);
    }
  }

  /** An accepted request with items whose products fit in a `long` declared
      the exact sum of the products as its total, which is positive, so its
      discount lies between 0 and a fifth of the total. */
  lemma AcceptedItemsReconciled(request: TransactionRequest, now: ValidDateTime,
                                parse: DateParser, crypto: Crypto)
    requires Submit(request, now, parse, crypto).Accepted?
    requires request.items.Some? && request.items.value != []
    requires forall i :: 0 <= i < |request.items.value| ==>
               InInt64(request.items.value[i].qty * request.items.value[i].unitprice)
    ensures var r := Submit(request, now, parse, crypto);
      request.totalamount == ItemsAmount(request.items.value) > 0 &&
      r.totaldiscount == Discount(request.totalamount) &&
      0 <= r.totaldiscount <= request.totalamount / 5 &&
      r.finalamount == request.totalamount - r.totaldiscount
  {
    var items := request.items.value;
    var k := FirstInvalidItem(items);
    SubtotalSumExact(items);
    ValidItemsPositive(items);
  }

  /** White space around the signature changes nothing: the field is still
      non-blank and the trimmed comparison sees the same string. */
  lemma SignaturePaddingIrrelevant(request: TransactionRequest, left: string, right: string,
                                   now: ValidDateTime, parse: DateParser, crypto: Crypto)
    requires request.sig.Some? && AllWhiteSpace(left) && AllWhiteSpace(right)
    ensures Submit(request.(sig := Some(left + request.sig.value + right)), now, parse, crypto)
         == Submit(request, now, parse, crypto)
  {
    var padded := request.(sig := Some(left + request.sig.value + right));
    BlankIgnoresPadding(left, request.sig.value, right);
    assert MissingField(padded) == MissingField(request);
    if MissingField(request).None? {
      var secret := Authenticate(request.partnerkey.value, request.partnerpassword.value);
      if secret.Some? {
        SignaturePaddingIgnored(request, left, right, secret.value, parse, crypto);
      }
    }
  }

  /** A request that passed the fields, credentials and signature checks but
      whose timestamp is not fresh gets 400 "Expired.", whatever its items. */
  lemma StaleTimestampExpired(request: TransactionRequest, now: ValidDateTime,
                              parse: DateParser, crypto: Crypto)
    requires FieldsPresent(request)
    requires Authenticate(request.partnerkey.value, request.partnerpassword.value).Some?
    requires VerifySignature(request, AllowedPartners[request.partnerkey.value], parse, crypto)
             == Returns(true)
    requires !IsTimestampValid(request.timestamp, now, parse)
    ensures Submit(request, now, parse, crypto) == Rejected(400, "Expired.")
  {
  }

  /** A fresh, authenticated, correctly signed request with items whose
      products neither wrap nor overflow the running sum, and whose exact sum
      differs from the declared total, gets 400 "Invalid Total Amount.". */
  lemma MismatchRejected(request: TransactionRequest, now: ValidDateTime,
                         parse: DateParser, crypto: Crypto)
    requires FieldsPresent(request)
    requires Authenticate(request.partnerkey.value, request.partnerpassword.value).Some?
    requires VerifySignature(request, AllowedPartners[request.partnerkey.value], parse, crypto)
             == Returns(true)
    requires IsTimestampValid(request.timestamp, now, parse)
    requires request.items.Some? && request.items.value != []
    requires forall k :: 1 <= k <= |request.items.value| ==>
               InInt64(SubtotalSum(request.items.value[..k]))
    requires forall i :: 0 <= i < |request.items.value| ==>
               InInt64(request.items.value[i].qty * request.items.value[i].unitprice)
    requires ItemsAmount(request.items.value) != request.totalamount
    ensures Submit(request, now, parse, crypto) == Rejected(400, "Invalid Total Amount.")
  {
    MismatchBeforeItemChecks(request.items.value, request.totalamount);
  }

  /** Every accepted response echoes the request's total, carries the
      discount `CalculateDiscount` computes for it, and the final amount is
      the total minus that discount. */
  lemma AcceptedPriced(request: TransactionRequest, now: ValidDateTime,
                       parse: DateParser, crypto: Crypto)
    requires Submit(request, now, parse, crypto).Accepted?
    ensures var r := Submit(request, now, parse, crypto);
      r.totalamount == request.totalamount &&
      r.totaldiscount == Discount(request.totalamount) &&
      r.finalamount == r.totalamount - r.totaldiscount
  {
  }
}
