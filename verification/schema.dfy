/**
 * The value domains of the Tessera database schema: identifiers, the
 * status enumerations that the tables' CHECK constraints allow, and the
 * text each status is stored as.  Amounts are `nat` because every money
 * column carries a `>= 0` CHECK.
 */
module Schema {

  datatype Option<+T> = None | Some(value: T)

  type UserId = int
  type VenueId = int
  type EventId = int
  type SeatId = int
  type TierId = int
  type CartId = int
  type OrderId = int
  type OrderItemId = int
  type TicketId = int

  /** A UTC instant.  The source stores ISO-8601 text and compares it
      lexicographically; the model compares the instants themselves. */
  type Time = int

  /** Length of a hold, in the unit of `Time` (seconds): ten minutes. */
  const HoldSeconds: int := 10 * 60

  // ---------------------------------------------------------------------
  // EventSeatStatus.status IN ('AVAILABLE','HELD','SOLD')

  datatype SeatStatus = Available | Held | Sold

  function SeatStatusName(s: SeatStatus): string
  {
    match s
    case Available => "AVAILABLE"
    case Held => "HELD"
    case Sold => "SOLD"
  }

  function ParseSeatStatus(text: string): (r: Option<SeatStatus>)
    ensures r.Some? <==> text == "AVAILABLE" || text == "HELD" || text == "SOLD"
    ensures forall v :: r == Some(v) <==> SeatStatusName(v) == text
  {
    if text == "AVAILABLE" then Some(Available)
    else if text == "HELD" then Some(Held)
    else if text == "SOLD" then Some(Sold)
    else None
  }

  // ---------------------------------------------------------------------
  // Carts.status IN ('OPEN','CONVERTED','EXPIRED')

  datatype CartStatus = Open | Converted | Expired

  function CartStatusName(s: CartStatus): string
  {
    match s
    case Open => "OPEN"
    case Converted => "CONVERTED"
    case Expired => "EXPIRED"
  }

  function ParseCartStatus(text: string): (r: Option<CartStatus>)
    ensures r.Some? <==> text == "OPEN" || text == "CONVERTED" || text == "EXPIRED"
    ensures forall v :: r == Some(v) <==> CartStatusName(v) == text
  {
    if text == "OPEN" then Some(Open)
    else if text == "CONVERTED" then Some(Converted)
    else if text == "EXPIRED" then Some(Expired)
    else None
  }

  // ---------------------------------------------------------------------
  // Events.status IN ('SCHEDULED','ON_SALE','CANCELLED','COMPLETED')

  datatype EventStatus = Scheduled | OnSale | EventCancelled | Completed

  function EventStatusName(s: EventStatus): string
  {
    match s
    case Scheduled => "SCHEDULED"
    case OnSale => "ON_SALE"
    case EventCancelled => "CANCELLED"
    case Completed => "COMPLETED"
  }

  /** Also the whitelist `create_event` applies to a requested status. */
  function ParseEventStatus(text: string): (r: Option<EventStatus>)
    ensures r.Some? <==> text == "SCHEDULED" || text == "ON_SALE" || text == "CANCELLED" || text == "COMPLETED"
    ensures forall v :: r == Some(v) <==> EventStatusName(v) == text
  {
    if text == "SCHEDULED" then Some(Scheduled)
    else if text == "ON_SALE" then Some(OnSale)
    else if text == "CANCELLED" then Some(EventCancelled)
    else if text == "COMPLETED" then Some(Completed)
    else None
  }

  /** Reservations are accepted only for these two event statuses. */
  predicate Sellable(s: EventStatus) {
    s == OnSale || s == Scheduled
  }

  // ---------------------------------------------------------------------
  // Orders.status IN ('PENDING','PAID','CANCELLED','REFUNDED')

  datatype OrderStatus = Pending | Paid | OrderCancelled | Refunded

  function OrderStatusName(s: OrderStatus): string
  {
    match s
    case Pending => "PENDING"
    case Paid => "PAID"
    case OrderCancelled => "CANCELLED"
    case Refunded => "REFUNDED"
  }

  function ParseOrderStatus(text: string): (r: Option<OrderStatus>)
    ensures r.Some? <==> text == "PENDING" || text == "PAID" || text == "CANCELLED" || text == "REFUNDED"
    ensures forall v :: r == Some(v) <==> OrderStatusName(v) == text
  {
    if text == "PENDING" then Some(Pending)
    else if text == "PAID" then Some(Paid)
    else if text == "CANCELLED" then Some(OrderCancelled)
    else if text == "REFUNDED" then Some(Refunded)
    else None
  }

  // ---------------------------------------------------------------------
  // Tickets.status: the values the handlers write and test

  datatype TicketStatus = Issued | Scanned | Voided

  function TicketStatusName(s: TicketStatus): string
  {
    match s
    case Issued => "ISSUED"
    case Scanned => "SCANNED"
    case Voided => "VOIDED"
  }

  function ParseTicketStatus(text: string): (r: Option<TicketStatus>)
    ensures r.Some? <==> text == "ISSUED" || text == "SCANNED" || text == "VOIDED"
    ensures forall v :: r == Some(v) <==> TicketStatusName(v) == text
  {
    if text == "ISSUED" then Some(Issued)
    else if text == "SCANNED" then Some(Scanned)
    else if text == "VOIDED" then Some(Voided)
    else None
  }

  // ---------------------------------------------------------------------
  // Users.role IN ('CUSTOMER','ADMIN')

  datatype Role = Customer | Admin

  function RoleName(r: Role): string
  {
    match r
    case Customer => "CUSTOMER"
    case Admin => "ADMIN"
  }

  function ParseRole(text: string): (r: Option<Role>)
    ensures r.Some? <==> text == "CUSTOMER" || text == "ADMIN"
    ensures forall v :: r == Some(v) <==> RoleName(v) == text
  {
    if text == "CUSTOMER" then Some(Customer)
    else if text == "ADMIN" then Some(Admin)
    else None
  }
}
