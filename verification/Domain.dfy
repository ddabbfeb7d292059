/** The tables of the reservation tool. A row's id is its position in its table; rows are only ever appended. */
module Domain {
  import opened Common

  // --- Users and groups --------------------------------------------------

  datatype Role = Bot | Developer | Lead | Manager | Owner

  datatype UserStatus = Registered | Approved | Refused | Disabled

  datatype Permission =
    | SwapRequestPermission
    | SwapApprovePermission
    | BorrowRequestPermission
    | BorrowApprovePermission
    | BorrowReturnPermission
    | ReservationCreatePermission
    | ReservationCancelOwnPermission
    | ReservationCancelAnyPermission
    | GroupManagePermission
    | ProductManagePermission
    | ImportRunPermission

  /** groupId is the primary group; groups are the many-to-many memberships. */
  datatype User = User(groupId: Option<int>, groups: set<int>, role: Option<Role>, status: UserStatus,
                       isActive: bool, permissions: set<Permission>) {
    predicate IsOwner() { role == Some(Owner) }

    predicate IsLeadOrManager() { role == Some(Lead) || role == Some(Manager) }

    /** The primary group and every membership. */
    function AllGroups(): set<int> {
      groups + if groupId.Some? then {groupId.value} else {}
    }
  }

  datatype Scope = SwapScope | BorrowScope | BothScopes

  datatype Edge = Edge(parent: int, child: int, scope: Scope)

  // --- Setups ------------------------------------------------------------

  /** The fixed hardware columns: what a swap may exchange and a baseline records. */
  datatype Field =
    | Ssd | Hdd | HardwareInfo | Capacity | FormFactor
    | Adapter | Aardvark | Quarch | Apc | RemoteServer

  const FIELDS: seq<Field> :=
    [Ssd, Hdd, HardwareInfo, Capacity, FormFactor, Adapter, Aardvark, Quarch, Apc, RemoteServer]

  lemma EveryFieldListed(f: Field)
    ensures f in FIELDS
  {
    match f
    case Ssd => assert FIELDS[0] == f;
    case Hdd => assert FIELDS[1] == f;
    case HardwareInfo => assert FIELDS[2] == f;
    case Capacity => assert FIELDS[3] == f;
    case FormFactor => assert FIELDS[4] == f;
    case Adapter => assert FIELDS[5] == f;
    case Aardvark => assert FIELDS[6] == f;
    case Quarch => assert FIELDS[7] == f;
    case Apc => assert FIELDS[8] == f;
    case RemoteServer => assert FIELDS[9] == f;
  }

  /** The value of every fixed column. */
  type Fields = m: map<Field, Option<string>> | forall f: Field :: f in m
    witness map f: Field | true :: None

  datatype SetupStatus = Available | Reserved | Maintenance | Retired

  datatype Setup = Setup(productId: int, groupId: Option<int>, ipAddress: string, hostname: string, fixed: Fields,
                         ownerId: Option<int>, location: string, remarks: Option<string>, status: SetupStatus) {
    /** Setups under maintenance or retired take part in no new swap, borrow or reservation. */
    predicate OutOfService() { status == Maintenance || status == Retired }
  }

  // --- Template columns --------------------------------------------------

  datatype ColumnType = StringColumn | IntegerColumn | BooleanColumn | DropdownColumn

  datatype Column = Column(id: int, name: string, dataType: ColumnType, required: bool, default: Option<string>,
                           allowed: seq<string>)

  /** A swappable column, as the exchange loop tells them apart: a fixed field, or a custom column by name. */
  datatype Col = Fixed(field: Field) | Custom(name: string)

  /** The database column behind a fixed field. */
  function FieldName(f: Field): string {
    match f
    case Ssd => "ssd"
    case Hdd => "hdd"
    case HardwareInfo => "hardware_info"
    case Capacity => "capacity"
    case FormFactor => "form_factor"
    case Adapter => "adapter"
    case Aardvark => "aardvark"
    case Quarch => "quarch"
    case Apc => "apc"
    case RemoteServer => "remote_server"
  }

  /** The exchange loop's test: a name among the fixed columns is a fixed field, whatever the template says. */
  function Resolve(name: string): Col {
    match FindFirst(FIELDS, (f: Field) => FieldName(f) == name)
    case Some(i) => Fixed(FIELDS[i])
    case None => Custom(name)
  }

  function ResolveAll(names: seq<string>): seq<Col> {
    seq(|names|, i requires 0 <= i < |names| => Resolve(names[i]))
  }

  lemma ResolveInjective(a: string, b: string)
    ensures Resolve(a) == Resolve(b) ==> a == b
  {
  }

  lemma ResolveAllDistinct(names: seq<string>)
    ensures Distinct(ResolveAll(names)) <==> Distinct(names)
  {
    forall i, j | 0 <= i < j < |names| ensures Resolve(names[i]) == Resolve(names[j]) <==> names[i] == names[j] {
      ResolveInjective(names[i], names[j]);
    }
    var cols := ResolveAll(names);
    assert forall i :: 0 <= i < |names| ==> cols[i] == Resolve(names[i]);
  }

  /** One stored custom value: setup id and template-column id. */
  type CellKey = (int, int)

  // --- Requests, grants and the change ledger ----------------------------

  datatype ReservationStatus = Active | Completed | Cancelled

  datatype Reservation = Reservation(setupId: int, userId: int, from: int, until: int, status: ReservationStatus)

  datatype SwapStatus = SwapPending | SwapCompleted | SwapRejected | SwapCancelled

  datatype Swap = Swap(requesterId: int, currentSetupId: int, requestedSetupId: int, columnName: string,
                       status: SwapStatus, approvedById: Option<int>)

  datatype BorrowStatus =
    | BorrowPending
    | BorrowCompleted
    | BorrowRejected
    | BorrowCancelled
    | BorrowReturned
    | BorrowExpired

  datatype Borrow = Borrow(requesterId: int, sourceGroupId: int, targetGroupId: int, setupId: int,
                           fieldName: Option<string>, endTime: Option<int>, status: BorrowStatus,
                           approvedById: Option<int>, returnedById: Option<int>)

  datatype Grant = Grant(setupId: int, borrowId: int, sourceGroupId: int, grantedToGroupId: int, isActive: bool)

  datatype LedgerRow = LedgerRow(setupId: int, field: Col, oldValue: Option<string>, newValue: Option<string>,
                                 swapId: int, changedById: int)

  // --- The whole store ---------------------------------------------------

  datatype State = State(
    users: seq<User>,
    groups: set<int>,
    templates: map<int, seq<Column>>,
    setups: seq<Setup>,
    values: map<CellKey, Option<string>>,
    baselines: map<int, Fields>,
    customBaselines: map<CellKey, Option<string>>,
    ledger: seq<LedgerRow>,
    reservations: seq<Reservation>,
    swaps: seq<Swap>,
    borrows: seq<Borrow>,
    grants: seq<Grant>,
    edges: seq<Edge>,
    requireSameProduct: bool,
    minLeadTime: int
  ) {
    predicate HasUser(id: int) { 0 <= id < |users| }

    predicate HasSetup(id: int) { 0 <= id < |setups| }

    /** The custom columns of a product, in display order. */
    function Template(productId: int): seq<Column> {
      if productId in templates then templates[productId] else []
    }
  }
}
