/**
 * The delivery records the dashboard receives from `/api/deliveries`, with
 * every loosely typed field reduced to the shapes the dashboard tells
 * apart. A field that is absent, `null`, or of a type the dashboard skips
 * is `None`.
 */
module Parcel {
  import opened Wrappers

  /** `carrier`: a bare string, an object with optional name and code, or
      anything else. */
  datatype CarrierField = CStr(s: string) | CObj(name: Option<string>, code: Option<string>) | CNone

  /** An event's `location`: a string, an object with optional parts, or
      anything else. */
  datatype LocationField =
    | LStr(s: string)
    | LObj(name: Option<string>, displayName: Option<string>,
           city: Option<string>, state: Option<string>, country: Option<string>)
    | LNone

  /** `status_code`: a number, a string, or absent. */
  datatype StatusCode = SNum(n: int) | SStr(s: string) | SNone

  datatype Event = Event(location: LocationField, city: Option<string>, state: Option<string>, country: Option<string>)

  datatype Delivery = Delivery(
    id: Option<string>,
    trackingNumber: Option<string>,
    title: Option<string>,
    name: Option<string>,
    description: Option<string>,
    displayName: Option<string>,
    itemName: Option<string>,
    merchant: Option<string>,
    status: Option<string>,
    statusCode: StatusCode,
    carrier: CarrierField,
    carrierCode: Option<string>,
    carrierSlug: Option<string>,
    carrierId: Option<string>,
    provider: Option<string>,
    shipper: Option<string>,
    dateExpected: Option<string>,
    estimateArrival: Option<string>,
    events: Option<seq<Event>>,
    location: Option<string>)

  /** An entry of the carrier directory from `/api/carriers`. */
  datatype Carrier = Carrier(code: string, name: string)
}
