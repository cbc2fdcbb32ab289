/**
 The field check at the top of the delivery-payment route
 `/api/mpesa/delivery`: before any call to M-PESA or the mail server, the four
 fields of the request body must all be truthy.
 */
module Delivery {

  import opened JsValue

  /** The fields the route destructures from the body, in order. */
  const RequiredFields: seq<string> := ["phone", "transactionCode", "address", "amount"]

  datatype DeliveryRequest = DeliveryRequest(phone: Value, transactionCode: Value, address: Value, amount: Value)

  datatype DeliveryCheck =
    | MissingFields                // 400 "Missing required fields"
    | Proceed(request: DeliveryRequest)

  /** The route's guard: 400 as soon as one field is falsy (absent, null,
      false, 0 or the empty string); otherwise the four values go on to the
      payment request unchanged. */
  function CheckDelivery(data: Body): (r: DeliveryCheck)
    ensures r.MissingFields? <==> exists i :: 0 <= i < |RequiredFields| && !Truthy(Read(data, RequiredFields[i]))
    ensures r.Proceed? ==>
              && "phone" in data && r.request.phone == data["phone"]
              && "transactionCode" in data && r.request.transactionCode == data["transactionCode"]
              && "address" in data && r.request.address == data["address"]
              && "amount" in data && r.request.amount == data["amount"]
  {
    var phone := Read(data, "phone");
    var transactionCode := Read(data, "transactionCode");
    var address := Read(data, "address");
    var amount := Read(data, "amount");
    if !Truthy(phone) || !Truthy(transactionCode) || !Truthy(address) || !Truthy(amount) then
      assert !Truthy(Read(data, RequiredFields[0])) || !Truthy(Read(data, RequiredFields[1]))
          || !Truthy(Read(data, RequiredFields[2])) || !Truthy(Read(data, RequiredFields[3]));
      MissingFields
    else
      assert forall i :: 0 <= i < |RequiredFields| ==> Truthy(Read(data, RequiredFields[i]));
      Proceed(DeliveryRequest(phone, transactionCode, address, amount))
  }

  /** A body that lacks any one of the four fields is refused with 400,
      whatever the other three hold. */
  lemma AbsentFieldRefused(data: Body, i: int)
    requires 0 <= i < |RequiredFields| && RequiredFields[i] !in data
    ensures CheckDelivery(data) == MissingFields
  {
  }
}
