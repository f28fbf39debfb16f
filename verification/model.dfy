/** The records of domain/model/unifi.go that the service reads, reduced to the
    fields it inspects, and the constants of infrastructure/unifi.go. */
module Model {
  import opened Types

  /** An instant, as nanoseconds since the Unix epoch (Go's `time.Time`). */
  type Instant = int

  const NanosPerSecond: int := 1_000_000_000
  const NanosPerMinute: int := 60 * NanosPerSecond

  /** Go's zero `time.Time`, January 1 of year 1 UTC, in Unix nanoseconds. */
  const ZeroInstant: Instant := -62_135_596_800 * NanosPerSecond

  /** Name of the controller's session cookie. */
  const AuthCookieName: string := "unifises"

  /** Lifetime given to a freshly obtained session: 19 minutes. */
  const AuthCookieDuration: int := 19 * NanosPerMinute

  /** Growth of the pagination window per request. */
  const PaginateBy: int := 20

  /** The cached controller session (`UnifiSession`). */
  datatype Session = Session(key: string, expiration: Instant)

  /** The zero value `UnifiSession{}`: no session yet. */
  const ZeroSession: Session := Session("", ZeroInstant)

  /** The `{_limit, _start}` body sent with every controller request. */
  datatype Pagination = Pagination(limit: int, start: int)

  /** An alarm (`UnifiAlarm`) or event (`UnifiEvent`); both carry these fields
      and the service reads no others. */
  datatype Record = Record(datetime: Instant, msg: string, host: string)

  /** The two record kinds, each polled by its own loop. */
  datatype Kind = Alarms | Events

  /** A device directory entry (`UnifiDevice`). */
  datatype Device = Device(mac: string, name: string)

  /** A client directory entry (`UnifiUser`). */
  datatype User = User(mac: string, hostname: string)

  /** A cookie set by the login reply. */
  datatype Cookie = Cookie(name: string, value: string)

  /** What the login POST returns when the transport succeeded. */
  datatype LoginResponse = LoginResponse(status: string, body: string, cookies: seq<Cookie>)

  /** Records per site (`UnifiSiteAlarms`, `UnifiSiteEvents`). */
  type SiteRecords = map<string, seq<Record>>

  /** The controller's answer to one records request for a site and a window:
      the decoded `data` array, or the transport or decoding error. */
  type PageOracle = (string, Pagination) -> Result<seq<Record>>

  /** The controller's answer to one directory request (devices or users). */
  type DirectoryOracle<T> = (string, Pagination) -> Result<seq<T>>
}
