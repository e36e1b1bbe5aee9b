/**
 * The three record types of the service (Bloq, Locker, Rent), their choice
 * enumerations with the codes stored in the database and sent on the wire,
 * and their `__str__` labels.
 */
module Models {
  import opened Wrappers

  /** Longest text a primary key, title or address may hold. */
  const MaxLength: nat := 255

  // ---------------------------------------------------------------- choices

  datatype LockerStatus = Open | Closed

  datatype LockerSize = XS | S | M | L | XL

  datatype RentStatus = Created | WaitingDropoff | WaitingPickup | Delivered

  function LockerStatusCode(s: LockerStatus): string
  {
    match s
    case Open => "OPEN"
    case Closed => "CLOSED"
  }

  function LockerSizeCode(z: LockerSize): string
  {
    match z
    case XS => "XS"
    case S => "S"
    case M => "M"
    case L => "L"
    case XL => "XL"
  }

  function RentStatusCode(s: RentStatus): string
  {
    match s
    case Created => "CREATED"
    case WaitingDropoff => "WAITING_DROPOFF"
    case WaitingPickup => "WAITING_PICKUP"
    case Delivered => "DELIVERED"
  }

  /** Reads a locker status choice; only the two codes are accepted. */
  function ParseLockerStatus(t: string): (r: Option<LockerStatus>)
    ensures forall s :: r == Some(s) <==> LockerStatusCode(s) == t
  {
    if t == "OPEN" then Some(Open)
    else if t == "CLOSED" then Some(Closed)
    else None
  }

  /** Reads a size choice, shared by lockers and rents; only the five codes are accepted. */
  function ParseLockerSize(t: string): (r: Option<LockerSize>)
    ensures forall z :: r == Some(z) <==> LockerSizeCode(z) == t
  {
    if t == "XS" then Some(XS)
    else if t == "S" then Some(S)
    else if t == "M" then Some(M)
    else if t == "L" then Some(L)
    else if t == "XL" then Some(XL)
    else None
  }

  /** Reads a rent status choice; only the four codes are accepted. */
  function ParseRentStatus(t: string): (r: Option<RentStatus>)
    ensures forall s :: r == Some(s) <==> RentStatusCode(s) == t
  {
    if t == "CREATED" then Some(Created)
    else if t == "WAITING_DROPOFF" then Some(WaitingDropoff)
    else if t == "WAITING_PICKUP" then Some(WaitingPickup)
    else if t == "DELIVERED" then Some(Delivered)
    else None
  }

  // ---------------------------------------------------------------- records

  /** A facility holding lockers. */
  datatype Bloq = Bloq(id: string, title: string, address: string)

  /**
   * A locker of the Bloq `bloqId`. `isOccupied` is a field of its own: the
   * record does not tie it to `status`.
   */
  datatype Locker = Locker(
    id: string,
    bloqId: string,
    status: LockerStatus,
    isOccupied: bool,
    size: Option<LockerSize>)

  /** A rental of the Locker `lockerId`; `weight` is carried unchanged. */
  datatype Rent = Rent(
    id: string,
    lockerId: string,
    weight: real,
    size: LockerSize,
    status: RentStatus)

  function BloqKey(b: Bloq): string { b.id }

  function LockerKey(l: Locker): string { l.id }

  function RentKey(r: Rent): string { r.id }

  /** A required text field: not blank and at most `MaxLength` characters. */
  predicate RequiredText(t: string)
  {
    0 < |t| <= MaxLength
  }

  predicate WellFormedBloq(b: Bloq)
  {
    RequiredText(b.id) && RequiredText(b.title) && RequiredText(b.address)
  }

  predicate WellFormedLocker(l: Locker)
  {
    RequiredText(l.id)
  }

  predicate WellFormedRent(r: Rent)
  {
    RequiredText(r.id)
  }

  // ---------------------------------------------------------------- labels

  /** `str(bloq)`: the title. */
  function BloqLabel(b: Bloq): string
  {
    b.title
  }

  /** `str(locker)`: "Locker {id} - {status}". */
  function LockerLabel(l: Locker): string
  {
    "Locker " + l.id + " - " + LockerStatusCode(l.status)
  }

  /** `str(rent)`: "Rent {id} - {status}". */
  function RentLabel(r: Rent): string
  {
    "Rent " + r.id + " - " + RentStatusCode(r.status)
  }

  /** The text between `prefix` and `suffix`, when `t` starts and ends with them. */
  function Unwrap(t: string, prefix: string, suffix: string): (r: Option<string>)
    ensures r.Some? ==> t == prefix + r.value + suffix
  {
    if |prefix| + |suffix| <= |t| && t[..|prefix|] == prefix && t[|t| - |suffix|..] == suffix
    then
      var mid := t[|prefix|..|t| - |suffix|];
      assert t == t[..|prefix|] + mid + t[|t| - |suffix|..];
      Some(mid)
    else None
  }

  lemma UnwrapWrapped(prefix: string, mid: string, suffix: string)
    ensures Unwrap(prefix + mid + suffix, prefix, suffix) == Some(mid)
  {
    var t := prefix + mid + suffix;
    assert t[..|prefix|] == prefix;
    assert t[|t| - |suffix|..] == suffix;
    assert t[|prefix|..|t| - |suffix|] == mid;
  }

  /** The last three characters of a text. */
  function Tail3(t: string): string
    requires |t| >= 3
  {
    t[|t| - 3..]
  }

  /** A text ending in `suffix` does not unwrap with a suffix whose last three characters differ. */
  lemma UnwrapOtherSuffix(prefix: string, mid: string, suffix: string, other: string)
    requires |suffix| >= 3 && |other| >= 3
    requires Tail3(suffix) != Tail3(other)
    ensures Unwrap(prefix + mid + suffix, prefix, other) == None
  {
  }

  /**
   * Reads a label "{prefix}{id} - {code}": the first choice, in the order of
   * `choices`, whose code ends the text.
   */
  function ParseLabel<S>(t: string, prefix: string, choices: seq<S>, code: S -> string): Option<(string, S)>
  {
    if choices == [] then None
    else
      match Unwrap(t, prefix, " - " + code(choices[0]))
      case Some(id) => Some((id, choices[0]))
      case None => ParseLabel(t, prefix, choices[1..], code)
  }

  lemma {:induction false} ParseLabelFinds<S>(prefix: string, id: string, choices: seq<S>, code: S -> string, s: S)
    requires s in choices
    requires forall c :: c in choices && c != s ==> Tail3(" - " + code(c)) != Tail3(" - " + code(s))
    ensures ParseLabel(prefix + id + (" - " + code(s)), prefix, choices, code) == Some((id, s))
  {
    if choices[0] == s {
      UnwrapWrapped(prefix, id, " - " + code(s));
    } else {
      UnwrapOtherSuffix(prefix, id, " - " + code(s), " - " + code(choices[0]));
      ParseLabelFinds(prefix, id, choices[1..], code, s);
    }
  }

  const LockerStatuses: seq<LockerStatus> := [Open, Closed]

  const RentStatuses: seq<RentStatus> := [Created, WaitingDropoff, WaitingPickup, Delivered]

  /** Reads back the id and status from a locker label. */
  function ParseLockerLabel(t: string): Option<(string, LockerStatus)>
  {
    ParseLabel(t, "Locker ", LockerStatuses, LockerStatusCode)
  }

  /** Reads back the id and status from a rent label. */
  function ParseRentLabel(t: string): Option<(string, RentStatus)>
  {
    ParseLabel(t, "Rent ", RentStatuses, RentStatusCode)
  }

  lemma LockerStatusTail(s: LockerStatus)
    ensures Tail3(" - " + LockerStatusCode(s)) == (if s == Open then "PEN" else "SED")
  {
    match s
    case Open => assert " - OPEN"[4..] == "PEN";
    case Closed => assert " - CLOSED"[6..] == "SED";
  }

  lemma RentStatusTail(s: RentStatus)
    ensures Tail3(" - " + RentStatusCode(s)) ==
      match s
      case Created => "TED"
      case WaitingDropoff => "OFF"
      case WaitingPickup => "KUP"
      case Delivered => "RED"
  {
    match s
    case Created => assert " - CREATED"[7..] == "TED";
    case WaitingDropoff => assert " - WAITING_DROPOFF"[15..] == "OFF";
    case WaitingPickup => assert " - WAITING_PICKUP"[14..] == "KUP";
    case Delivered => assert " - DELIVERED"[9..] == "RED";
  }

  /** A locker label names exactly its locker's id and status. */
  lemma LockerLabelRoundTrip(l: Locker)
    ensures ParseLockerLabel(LockerLabel(l)) == Some((l.id, l.status))
  {
    forall c | c in LockerStatuses && c != l.status
      ensures Tail3(" - " + LockerStatusCode(c)) != Tail3(" - " + LockerStatusCode(l.status))
    {
      LockerStatusTail(c);
      LockerStatusTail(l.status);
    }
    assert LockerLabel(l) == "Locker " + l.id + (" - " + LockerStatusCode(l.status));
    ParseLabelFinds("Locker ", l.id, LockerStatuses, LockerStatusCode, l.status);
  }

  /** A rent label names exactly its rent's id and status. */
  lemma RentLabelRoundTrip(r: Rent)
    ensures ParseRentLabel(RentLabel(r)) == Some((r.id, r.status))
  {
    forall c | c in RentStatuses && c != r.status
      ensures Tail3(" - " + RentStatusCode(c)) != Tail3(" - " + RentStatusCode(r.status))
    {
      RentStatusTail(c);
      RentStatusTail(r.status);
    }
    assert RentLabel(r) == "Rent " + r.id + (" - " + RentStatusCode(r.status));
    ParseLabelFinds("Rent ", r.id, RentStatuses, RentStatusCode, r.status);
  }

  /** Two lockers with the same label have the same id and status. */
  lemma LockerLabelDetermines(a: Locker, b: Locker)
    requires LockerLabel(a) == LockerLabel(b)
    ensures a.id == b.id && a.status == b.status
  {
    LockerLabelRoundTrip(a);
    LockerLabelRoundTrip(b);
  }

  /** Two rents with the same label have the same id and status. */
  lemma RentLabelDetermines(a: Rent, b: Rent)
    requires RentLabel(a) == RentLabel(b)
    ensures a.id == b.id && a.status == b.status
  {
    RentLabelRoundTrip(a);
    RentLabelRoundTrip(b);
  }

  /** The labels the model tests expect for their fixtures. */
  lemma LabelExamples()
    ensures BloqLabel(Bloq("1", "Bloq Test", "Test Address")) == "Bloq Test"
    ensures LockerLabel(Locker("1", "1", Open, false, None)) == "Locker 1 - OPEN"
    ensures RentLabel(Rent("1", "1", 10.5, M, Created)) == "Rent 1 - CREATED"
  {
  }
}
