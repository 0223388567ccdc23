/**
  `get_ip_geolocation`: the answer of the geolocation service for one address, normalised into
  a location record, with a default record when the request fails or the service reports no
  success.

  The HTTP request itself is not modelled: its outcome is the parameter `response`.
*/
module Geolocation {
  import opened Outcomes

  /** One field of the JSON object the service answers with: missing, `null`, or a value. */
  datatype Field<T> = Absent | Null | Present(value: T)

  /** The fields of the answer that are read. */
  datatype Payload = Payload(
    status: Field<string>,
    query: Field<string>,
    country: Field<string>,
    countryCode: Field<string>,
    lat: Field<int>,
    lon: Field<int>)

  /**
    What the request gives: a `requests.exceptions.RequestException` (no connection, a
    timeout, an error status raised by `raise_for_status`, a body that is not JSON), or the
    decoded JSON object.
  */
  datatype Response = RequestFailed | Received(payload: Payload)

  /** A location record. A text field is None where the answer held a JSON `null`. */
  datatype Location = Location(ip: Option<string>, country: Option<string>, countryCode: Option<string>, lat: int, lon: int)

  /** What escapes the lookup: `data['query']` on a successful answer without that field. */
  datatype LookupError = MissingQuery

  const UnknownCountry: string := "Unknown"
  const UnknownCode: string := "??"
  const SuccessStatus: string := "success"

  /** The record used when nothing is known about ip. */
  function DefaultLocation(ip: string): Location {
    Location(Some(ip), Some(UnknownCountry), Some(UnknownCode), 0, 0)
  }

  /** `data.get(key, fallback)`: the fallback only when the key is missing; a `null` stays a `null`. */
  function GetOr<T>(f: Field<T>, fallback: T): Option<T> {
    match f
    case Absent => Some(fallback)
    case Null => None
    case Present(v) => Some(v)
  }

  /** `data.get(key) or 0`: a missing key, a `null` and 0 all give 0. */
  function NumberOr0(f: Field<int>): int {
    match f
    case Present(v) => v
    case _ => 0
  }

  /** `get_ip_geolocation(ip)` when the request for ip gave response. */
  function Geolocate(ip: string, response: Response): Result<Location, LookupError> {
    match response
    case RequestFailed => Success(DefaultLocation(ip))
    case Received(data) =>
      if data.status != Present(SuccessStatus) then Success(DefaultLocation(ip))
      else
        match data.query
        case Absent => Failure(MissingQuery)
        case Null => Success(Location(None, GetOr(data.country, UnknownCountry), GetOr(data.countryCode, UnknownCode), NumberOr0(data.lat), NumberOr0(data.lon)))
        case Present(q) => Success(Location(Some(q), GetOr(data.country, UnknownCountry), GetOr(data.countryCode, UnknownCode), NumberOr0(data.lat), NumberOr0(data.lon)))
  }

  /** The answer is a success report: the request went through and its status is "success". */
  predicate Reported(response: Response) {
    response.Received? && response.payload.status == Present(SuccessStatus)
  }

  /**
    The lookup fails only on a success report without `query`; a failed request or any other
    status gives the default record for the address asked about: that address, country
    "Unknown", code "??", latitude and longitude 0.
  */
  lemma GeolocateOutcome(ip: string, response: Response)
    ensures Geolocate(ip, response).Failure? <==> Reported(response) && response.payload.query.Absent?
    ensures !Reported(response) ==>
              var loc := Geolocate(ip, response).value;
              loc.ip == Some(ip) && loc.country == Some("Unknown") && loc.countryCode == Some("??")
              && loc.lat == 0 && loc.lon == 0
  {
  }

  /**
    On a success report the record holds what the service says: the address it echoes in
    `query` (not the one asked about), the country and code or "Unknown" and "??" when they
    are missing and None when they are `null`, and the coordinates, 0 for one that is missing
    or `null`.
  */
  lemma GeolocateReported(ip: string, response: Response)
    requires Reported(response) && !response.payload.query.Absent?
    ensures var data, loc := response.payload, Geolocate(ip, response).value;
            && (data.query.Present? ==> loc.ip == Some(data.query.value))
            && (data.query.Null? ==> loc.ip == None)
            && (data.country.Absent? ==> loc.country == Some("Unknown"))
            && (data.country.Null? ==> loc.country == None)
            && (data.country.Present? ==> loc.country == Some(data.country.value))
            && (data.countryCode.Absent? ==> loc.countryCode == Some("??"))
            && (data.countryCode.Null? ==> loc.countryCode == None)
            && (data.countryCode.Present? ==> loc.countryCode == Some(data.countryCode.value))
            && (data.lat.Present? ==> loc.lat == data.lat.value)
            && (!data.lat.Present? ==> loc.lat == 0)
            && (data.lon.Present? ==> loc.lon == data.lon.value)
            && (!data.lon.Present? ==> loc.lon == 0)
  {
  }

  /**
    When the service echoes the address asked about, or does not report success, the record
    names that address, whatever else the answer says.
  */
  lemma GeolocateNamesAddress(ip: string, response: Response)
    requires Reported(response) ==> response.payload.query == Present(ip)
    ensures Geolocate(ip, response).Success? && Geolocate(ip, response).value.ip == Some(ip)
  {
  }
}
