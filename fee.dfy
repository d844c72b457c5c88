/**
 * Fee collection: setting a student's fee, reading it, preparing a payment order, and
 * verifying a gateway payment by its HMAC signature. A fee is paid at most once.
 */
module FeeController {
  import opened Common
  import opened Models
  import opened Store

  datatype Reason =
    | FeeFieldsRequired
    | StudentNotFound
    | FeeSaved
    | SchemaViolation
    | EnvNumberRequired
    | FeeNotFound
    | AlreadyPaid
    | PaymentDetailsMissing
    | SecretMissing
    | SignatureMismatch
    | PaymentAlreadyVerified
    | PaymentSuccessful

  predicate HasFee(fees: map<Id, Fee>, envNumber: string) {
    exists k :: k in fees && fees[k].envNumber == envNumber
  }

  predicate HasStudent(students: map<Id, Student>, envNumber: string) {
    exists k :: k in students && students[k].envNumber == envNumber
  }

  /** What saving a fee document checks: required strings non-empty, a duration from the enumeration. */
  predicate SchemaValid(f: Fee) {
    Given(f.envNumber) && Given(f.studentName) && Given(f.route) && IsDuration(f.duration)
  }

  /** The document setStudentFee builds for a student without a fee: it sets no duration. */
  function NewFee(envNumber: string, studentName: string, feeAmount: int, route: string): (f: Fee)
    ensures !SchemaValid(f)
    ensures f.envNumber == envNumber && f.feeAmount == feeAmount && f.route == route && !f.isPaid
  {
    Fee(envNumber, studentName, route, feeAmount, "", false, None, None)
  }

  /**
   * setStudentFee: the three fields are required (a fee of 0 is falsy), the student must
   * exist; an existing fee has only its amount and route overwritten, and a new one fails
   * schema validation because it has no duration, so nothing is created.
   */
  method SetStudentFee(db: Db, envNumber: string, feeAmount: int, route: string) returns (r: Response<Reason>)
    modifies db`fees
    ensures !Given(envNumber) || feeAmount == 0 || !Given(route) ==>
              r == Response(400, FeeFieldsRequired) && db.fees == old(db.fees)
    ensures Given(envNumber) && feeAmount != 0 && Given(route) && !HasStudent(db.students, envNumber) ==>
              r == Response(404, StudentNotFound) && db.fees == old(db.fees)
    ensures Given(envNumber) && feeAmount != 0 && Given(route) && HasStudent(db.students, envNumber) &&
            HasFee(old(db.fees), envNumber) ==>
              r == Response(200, FeeSaved) &&
              exists k :: k in old(db.fees) && old(db.fees)[k].envNumber == envNumber &&
                db.fees == old(db.fees)[k := old(db.fees)[k].(feeAmount := feeAmount, route := route)]
    ensures Given(envNumber) && feeAmount != 0 && Given(route) && HasStudent(db.students, envNumber) &&
            !HasFee(old(db.fees), envNumber) ==>
              r == Response(500, SchemaViolation) && db.fees == old(db.fees)
    ensures PaidFeesKept(old(db.fees), db.fees)
  {
    if !Given(envNumber) || feeAmount == 0 || !Given(route) {
      return Response(400, FeeFieldsRequired);
    }
    if !HasStudent(db.students, envNumber) {
      return Response(404, StudentNotFound);
    }
    var s :| s in db.students && db.students[s].envNumber == envNumber;
    if HasFee(db.fees, envNumber) {
      var k :| k in db.fees && db.fees[k].envNumber == envNumber;
      db.fees := db.fees[k := db.fees[k].(feeAmount := feeAmount, route := route)];
      r := Response(200, FeeSaved);
    } else {
      var doc := NewFee(envNumber, db.students[s].name, feeAmount, route);
      // saving `doc` is refused by validation: it has no duration
      r := Response(500, SchemaViolation);
    }
  }

  /** getStudentFee: some fee document with that enrolment number, or 404. */
  method GetStudentFee(db: Db, envNumber: string) returns (r: Reply<Reason, Fee>)
    ensures !Given(envNumber) ==> r == Refused(400, EnvNumberRequired)
    ensures Given(envNumber) && !HasFee(db.fees, envNumber) ==> r == Refused(404, FeeNotFound)
    ensures Given(envNumber) && HasFee(db.fees, envNumber) ==>
              r.Found? && r.value.envNumber == envNumber && r.value in db.fees.Values
  {
    if !Given(envNumber) {
      return Refused(400, EnvNumberRequired);
    }
    if !HasFee(db.fees, envNumber) {
      return Refused(404, FeeNotFound);
    }
    var k :| k in db.fees && db.fees[k].envNumber == envNumber;
    r := Found(db.fees[k]);
  }

  /** The order handed to the payment gateway. */
  datatype OrderOptions = OrderOptions(amount: int, currency: string, receipt: string, paymentCapture: int)

  /** A rupee amount in paise, the gateway's unit. */
  function Paise(rupees: int): (p: int)
    ensures p % 100 == 0 && p / 100 == rupees
  {
    rupees * 100
  }

  function OrderFor(fee: Fee, envNumber: string): (o: OrderOptions)
    ensures o.amount == Paise(fee.feeAmount) && o.currency == "INR" && o.receipt == "receipt_" + envNumber
    ensures o.paymentCapture == 1
  {
    OrderOptions(Paise(fee.feeAmount), "INR", "receipt_" + envNumber, 1)
  }

  /**
   * createPayment: the order for an unpaid fee; an absent fee is 404 and a paid one 400.
   * Placing the order with the gateway is not part of the model.
   */
  method CreatePayment(db: Db, envNumber: string) returns (r: Reply<Reason, OrderOptions>)
    ensures !Given(envNumber) ==> r == Refused(400, EnvNumberRequired)
    ensures Given(envNumber) && !HasFee(db.fees, envNumber) ==> r == Refused(404, FeeNotFound)
    ensures Given(envNumber) && HasFee(db.fees, envNumber) ==>
              exists k :: k in db.fees && db.fees[k].envNumber == envNumber &&
                r == if db.fees[k].isPaid then Refused(400, AlreadyPaid) else Found(OrderFor(db.fees[k], envNumber))
    ensures r.Found? ==> r.value.amount % 100 == 0 && r.value.currency == "INR" && r.value.receipt == "receipt_" + envNumber
  {
    if !Given(envNumber) {
      return Refused(400, EnvNumberRequired);
    }
    if !HasFee(db.fees, envNumber) {
      return Refused(404, FeeNotFound);
    }
    var k :| k in db.fees && db.fees[k].envNumber == envNumber;
    if db.fees[k].isPaid {
      return Refused(400, AlreadyPaid);
    }
    r := Found(OrderFor(db.fees[k], envNumber));
  }

  /** The text the gateway signs: the order id, a bar, the payment id. */
  function SignedBody(orderId: string, paymentId: string): (body: string)
    ensures |body| == |orderId| + 1 + |paymentId| && body[|orderId|] == '|'
    ensures body[..|orderId|] == orderId && body[|orderId| + 1..] == paymentId
  {
    orderId + "|" + paymentId
  }

  /** While order ids contain no bar, a signed body names exactly one (order, payment) pair. */
  lemma {:induction false} SignedBodyInjective(o1: string, p1: string, o2: string, p2: string)
    requires '|' !in o1 && '|' !in o2
    requires SignedBody(o1, p1) == SignedBody(o2, p2)
    ensures o1 == o2 && p1 == p2
  {
  }

  /** With a bar inside an order id two different pairs sign the same text. */
  lemma SignedBodyCollidesWithBars()
    ensures SignedBody("a|b", "c") == SignedBody("a", "b|c")
  {
  }

  /** The fee after a verified payment: paid, with the payment's date and id. */
  function Paid(fee: Fee, paymentId: string, now: int): (f: Fee)
    ensures f.isPaid && f.paymentDate == Some(now) && f.transactionId == Some(paymentId)
    ensures f.envNumber == fee.envNumber && f.studentName == fee.studentName && f.route == fee.route
    ensures f.feeAmount == fee.feeAmount && f.duration == fee.duration
  {
    fee.(isPaid := true, paymentDate := Some(now), transactionId := Some(paymentId))
  }

  /**
   * verifyPayment: required fields, then the fee, then the configured secret, then the
   * signature HMAC(secret, orderId|paymentId); a fee already paid answers 200 and keeps
   * its first transaction; otherwise the fee becomes paid. `hmac` stands for HMAC-SHA256.
   */
  method VerifyPayment(db: Db, envNumber: string, paymentId: string, orderId: string, signature: string,
                       secret: string, hmac: (string, string) -> string, now: int)
    returns (r: Response<Reason>)
    modifies db`fees
    ensures !Given(envNumber) || !Given(paymentId) || !Given(orderId) || !Given(signature) ==>
              r == Response(400, PaymentDetailsMissing) && db.fees == old(db.fees)
    ensures Given(envNumber) && Given(paymentId) && Given(orderId) && Given(signature) &&
            !HasFee(old(db.fees), envNumber) ==>
              r == Response(404, FeeNotFound) && db.fees == old(db.fees)
    ensures Given(envNumber) && Given(paymentId) && Given(orderId) && Given(signature) &&
            HasFee(old(db.fees), envNumber) && !Given(secret) ==>
              r == Response(500, SecretMissing) && db.fees == old(db.fees)
    ensures Given(envNumber) && Given(paymentId) && Given(orderId) && Given(signature) &&
            HasFee(old(db.fees), envNumber) && Given(secret) &&
            signature != hmac(secret, SignedBody(orderId, paymentId)) ==>
              r == Response(400, SignatureMismatch) && db.fees == old(db.fees)
    ensures Given(envNumber) && Given(paymentId) && Given(orderId) && Given(signature) &&
            HasFee(old(db.fees), envNumber) && Given(secret) &&
            signature == hmac(secret, SignedBody(orderId, paymentId)) ==>
              exists k :: k in old(db.fees) && old(db.fees)[k].envNumber == envNumber &&
                if old(db.fees)[k].isPaid then
                  r == Response(200, PaymentAlreadyVerified) && db.fees == old(db.fees)
                else
                  r == Response(200, PaymentSuccessful) && db.fees == old(db.fees)[k := Paid(old(db.fees)[k], paymentId, now)]
    ensures r == Response(200, PaymentSuccessful) ==> signature == hmac(secret, SignedBody(orderId, paymentId))
    ensures PaidFeesKept(old(db.fees), db.fees)
  {
    if !Given(envNumber) || !Given(paymentId) || !Given(orderId) || !Given(signature) {
      return Response(400, PaymentDetailsMissing);
    }
    if !HasFee(db.fees, envNumber) {
      return Response(404, FeeNotFound);
    }
    var k :| k in db.fees && db.fees[k].envNumber == envNumber;
    if !Given(secret) {
      return Response(500, SecretMissing);
    }
    var expected := hmac(secret, SignedBody(orderId, paymentId));
    if expected != signature {
      return Response(400, SignatureMismatch);
    }
    if db.fees[k].isPaid {
      return Response(200, PaymentAlreadyVerified);
    }
    db.fees := db.fees[k := Paid(db.fees[k], paymentId, now)];
    r := Response(200, PaymentSuccessful);
  }
}
