/**
 * The account store of `login_database.py`: users, hawk ownership, visibility
 * grants and notification rules. Each SQLite table is a sequence in insertion
 * order; the primary keys are the uniqueness conditions of `Valid`. Where the
 * order of `fetchone`/`fetchall` results is visible to callers it is stated:
 * `HawkOwnership` declares `serial_number INTEGER` as its sole primary key,
 * which makes the serial number the rowid, so its scans run in serial order.
 */
module Logins {
  import opened Base

  datatype User = User(userId: string, firstName: string, email: string, passwordHash: string)

  /** A row of `HawkOwnership`; the serial number is its primary key. */
  datatype Ownership = Ownership(userId: string, serial: int)

  /** A row of `HawkVisibility`; the whole row is its primary key. */
  datatype Grant = Grant(userId: string, serial: int)

  /** A row of `Notifications`: a threshold rule on one sensor of one hawk. */
  datatype Rule = Rule(id: string, userId: string, serial: int, hiveNumber: Option<int>,
                       sensor: string, sign: string, value: real)

  /** The exceptions the store raises. */
  datatype LoginError =
    | PermissionError
    | ValueError
    | IntegrityError
    | TypeError       // subscripting the `None` that `fetchone` returns for no row

  /** The user id that stands for every user in a visibility grant. */
  const Everyone: string := "ALL"

  // ---------------------------------------------------------------------------
  // Sequence helpers
  // ---------------------------------------------------------------------------

  /** No two rows of `s` share a key. */
  predicate UniqueBy<T, K(==)>(s: seq<T>, key: T -> K)
  {
    forall a, b :: 0 <= a < b < |s| ==> key(s[a]) != key(s[b])
  }

  /** The position of the first row satisfying `p`: what `fetchone` returns. */
  function First<T>(s: seq<T>, p: T -> bool): (r: Option<nat>)
    ensures r.Some? ==> r.value < |s| && p(s[r.value]) && forall j :: 0 <= j < r.value ==> !p(s[j])
    ensures r.None? ==> forall j :: 0 <= j < |s| ==> !p(s[j])
  {
    if s == [] then None
    else if p(s[0]) then Some(0)
    else
      match First(s[1..], p)
      case None => None
      case Some(k) => Some(k + 1)
  }

  /** The rows satisfying `keep`, in their order: what `fetchall` returns, or what a `DELETE` leaves. */
  function Filter<T(!new)>(s: seq<T>, keep: T -> bool): (r: seq<T>)
    ensures |r| <= |s|
    ensures forall x :: x in r <==> x in s && keep(x)
  {
    if s == [] then []
    else (if keep(s[0]) then [s[0]] else []) + Filter(s[1..], keep)
  }

  /** Filtering distributes over concatenation: a `fetchall` over two parts of a table is the two results joined. */
  lemma {:induction false} FilterAppend<T(!new)>(s: seq<T>, t: seq<T>, keep: T -> bool)
    ensures Filter(s + t, keep) == Filter(s, keep) + Filter(t, keep)
  {
    if s == [] {
      assert s + t == t;
    } else {
      assert (s + t)[0] == s[0] && (s + t)[1..] == s[1..] + t;
      FilterAppend(s[1..], t, keep);
    }
  }

  /** A single row is kept exactly when it satisfies the condition, so `Filter` keeps every such row in order. */
  lemma FilterSingle<T(!new)>(x: T, keep: T -> bool)
    ensures Filter([x], keep) == if keep(x) then [x] else []
  {
    assert [x][1..] == [];
  }

  /** Deleting rows keeps a table's primary key unique. */
  lemma {:induction false} FilterKeepsUnique<T(!new), K>(s: seq<T>, keep: T -> bool, key: T -> K)
    requires UniqueBy(s, key)
    ensures UniqueBy(Filter(s, keep), key)
  {
    if s != [] {
      assert UniqueBy(s[1..], key);
      FilterKeepsUnique(s[1..], keep, key);
      var rest := Filter(s[1..], keep);
      if keep(s[0]) {
        var r := [s[0]] + rest;
        forall a, b | 0 <= a < b < |r|
          ensures key(r[a]) != key(r[b])
        {
          if a == 0 {
            assert r[b] in s[1..];
            var j :| 0 <= j < |s[1..]| && s[1..][j] == r[b];
            assert key(s[0]) != key(s[j + 1]);
          } else {
            assert r[a] == rest[a - 1] && r[b] == rest[b - 1];
          }
        }
      }
    }
  }

  /** The serial-number column of some rows, in order: a one-column `SELECT`. */
  function SerialColumn<T>(rows: seq<T>, serial: T -> int): (r: seq<int>)
    ensures |r| == |rows| && forall k :: 0 <= k < |rows| ==> r[k] == serial(rows[k])
  {
    if rows == [] then [] else [serial(rows[0])] + SerialColumn(rows[1..], serial)
  }

  // ---------------------------------------------------------------------------
  // Queries
  // ---------------------------------------------------------------------------

  /** `fetch_user_by_email`: the first user registered with this email. */
  function UserByEmail(users: seq<User>, email: string): (r: Option<User>)
    ensures r.Some? ==> r.value in users && r.value.email == email
    ensures r.None? <==> forall u :: u in users ==> u.email != email
    ensures r.Some? ==> exists k :: 0 <= k < |users| && users[k] == r.value
                                    && forall j :: 0 <= j < k ==> users[j].email != email
  {
    match First(users, (u: User) => u.email == email)
    case None => None
    case Some(k) => Some(users[k])
  }

  /** `fetch_user`: the user with this id, if any. */
  function UserById(users: seq<User>, userId: string): (r: Option<User>)
    ensures r.Some? ==> r.value in users && r.value.userId == userId
    ensures r.None? <==> forall u :: u in users ==> u.userId != userId
  {
    match First(users, (u: User) => u.userId == userId)
    case None => None
    case Some(k) => Some(users[k])
  }

  /**
   * Registering a second account with an email already in use leaves the
   * email lookup on the first account.
   */
  lemma {:induction false} EmailLookupKeepsFirst(users: seq<User>, u: User)
    requires UserByEmail(users, u.email).Some?
    ensures UserByEmail(users + [u], u.email) == UserByEmail(users, u.email)
  {
    var p := (x: User) => x.email == u.email;
    var k := First(users, p).value;
    var k' := First(users + [u], p);
    assert (users + [u])[k] == users[k];
    assert k'.Some? && k'.value <= k;
  }

  /**
   * `check_visibility_permissions` as written: the owner, or a grant to exactly
   * this user. Its second test compares the serial number with `'ALL'`, which no
   * stored serial number equals, so a grant to user `'ALL'` does not count.
   */
  function CanView(owners: seq<Ownership>, grants: seq<Grant>, userId: string, serial: int): bool
  {
    Ownership(userId, serial) in owners || Grant(userId, serial) in grants
  }

  /** The permission check as the visibility docstrings describe it: a grant to `'ALL'` admits everyone. */
  function CanViewCorrected(owners: seq<Ownership>, grants: seq<Grant>, userId: string, serial: int): bool
  {
    CanView(owners, grants, userId, serial) || Grant(Everyone, serial) in grants
  }

  /**
   * For every user other than `'ALL'` itself, the as-written check answers the
   * same once every grant to `'ALL'` is deleted: such grants never admit anyone.
   */
  lemma {:induction false} EveryoneGrantsIgnored(owners: seq<Ownership>, grants: seq<Grant>, userId: string, serial: int)
    requires userId != Everyone
    ensures CanView(owners, grants, userId, serial)
            == CanView(owners, Filter(grants, (g: Grant) => g.userId != Everyone), userId, serial)
  {
    var kept := Filter(grants, (g: Grant) => g.userId != Everyone);
    assert Grant(userId, serial) in kept <==> Grant(userId, serial) in grants;
  }

  /**
   * The corrected check admits everyone the as-written one admits, and the only
   * users it adds are those covered by a grant to `'ALL'`.
   */
  lemma CorrectedCheckExtends(owners: seq<Ownership>, grants: seq<Grant>, userId: string, serial: int)
    ensures CanView(owners, grants, userId, serial) ==> CanViewCorrected(owners, grants, userId, serial)
    ensures CanViewCorrected(owners, grants, userId, serial) ==>
              CanView(owners, grants, userId, serial) || Grant(Everyone, serial) in grants
    ensures CanViewCorrected(owners, grants, userId, serial) <==>
              Ownership(userId, serial) in owners
              || exists g :: g in grants && g.serial == serial && (g.userId == userId || g.userId == Everyone)
  {
    if g :| g in grants && g.serial == serial && (g.userId == userId || g.userId == Everyone) {
      assert g == Grant(userId, serial) || g == Grant(Everyone, serial);
    }
  }

  /**
   * The serial of the first `HawkOwnership` row of `userId`, as `fetchone` sees
   * it: the scan runs in rowid order, that is by serial number, so it is the
   * least serial the user owns.
   */
  function LeastOwnedSerial(owners: seq<Ownership>, userId: string): (r: Option<int>)
    ensures r.Some? ==> Ownership(userId, r.value) in owners
                        && forall o :: o in owners && o.userId == userId ==> r.value <= o.serial
    ensures r.None? <==> forall o :: o in owners ==> o.userId != userId
  {
    if owners == [] then None
    else
      var rest := LeastOwnedSerial(owners[1..], userId);
      if owners[0].userId != userId then rest
      else if rest.Some? && rest.value < owners[0].serial then rest
      else Some(owners[0].serial)
  }

  /**
   * `fetch_visible_serial_numbers`: the serials granted to the user or to `'ALL'`,
   * with the user's least owned serial put in front when it is not already
   * listed. The granted serials are taken in sequence order here, but SQLite's
   * order for them is not specified; only which serials are listed is stated.
   */
  function VisibleSerials(owners: seq<Ownership>, grants: seq<Grant>, userId: string): (r: seq<int>)
    ensures forall s :: s in r <==>
              (exists g :: g in grants && g.serial == s && (g.userId == userId || g.userId == Everyone))
              || LeastOwnedSerial(owners, userId) == Some(s)
    ensures LeastOwnedSerial(owners, userId).None? ==> |r| <= |grants|
  {
    var listed := Filter(grants, (g: Grant) => g.userId == userId || g.userId == Everyone);
    var serials := SerialColumn(listed, (g: Grant) => g.serial);
    assert forall s :: s in serials <==> exists g :: g in listed && g.serial == s by {
      forall s | s in serials
        ensures exists g :: g in listed && g.serial == s
      {
        var k :| 0 <= k < |serials| && serials[k] == s;
        assert listed[k] in listed;
      }
    }
    match LeastOwnedSerial(owners, userId)
    case None => serials
    case Some(s) => if s in serials then serials else [s] + serials
  }

  /**
   * The list of visible serials and the permission check disagree: with a grant
   * to `'ALL'` the serial is listed for a user whom the check turns away.
   */
  lemma AllGrantListedButRefused()
    ensures var owners, grants := [Ownership("owner", 7)], [Grant(Everyone, 7)];
            7 in VisibleSerials(owners, grants, "guest") && !CanView(owners, grants, "guest", 7)
  {
    var grants := [Grant(Everyone, 7)];
    assert grants[0] in grants;
  }

  /** With the corrected check, every serial the list shows is one the user may view. */
  lemma VisibleSerialsViewable(owners: seq<Ownership>, grants: seq<Grant>, userId: string, s: int)
    requires s in VisibleSerials(owners, grants, userId)
    ensures CanViewCorrected(owners, grants, userId, s)
  {
    if !exists g :: g in grants && g.serial == s && (g.userId == userId || g.userId == Everyone) {
      assert Ownership(userId, s) in owners;
    } else {
      var g :| g in grants && g.serial == s && (g.userId == userId || g.userId == Everyone);
      assert g == Grant(userId, s) || g == Grant(Everyone, s);
    }
  }

  /**
   * Only one owned serial is added, the least: a user who registered hawk 9 and
   * then hawk 3, and holds no grants, is shown hawk 3 alone, although the
   * permission check admits them to hawk 9.
   */
  lemma SecondOwnedSerialNotListed()
    ensures var owners := [Ownership("owner", 9), Ownership("owner", 3)];
            VisibleSerials(owners, [], "owner") == [3] && CanView(owners, [], "owner", 9)
            && 9 in VisibleSerialsCorrected(owners, [], "owner")
  {
    var owners := [Ownership("owner", 9), Ownership("owner", 3)];
    assert owners[0] in owners && owners[1] in owners;
    assert LeastOwnedSerial(owners[1..], "owner") == Some(3);
  }

  /**
   * `fetch_hawk_owner`: the user owning the serial, looked up with `fetch_user`
   * (`None` when that user id has no account); no owner raises `TypeError`.
   */
  function HawkOwner(owners: seq<Ownership>, users: seq<User>, serial: int): (r: Result<Option<User>, LoginError>)
    ensures r.Err? <==> forall o :: o in owners ==> o.serial != serial
    ensures r.Err? ==> r.error == TypeError
    ensures r.Ok? ==> exists o :: o in owners && o.serial == serial && r.value == UserById(users, o.userId)
    ensures UniqueBy(owners, OwnershipKey) ==>
              forall o :: o in owners && o.serial == serial ==> r == Ok(UserById(users, o.userId))
  {
    match First(owners, (o: Ownership) => o.serial == serial)
    case None => Err(TypeError)
    case Some(k) =>
      assert owners[k] in owners;
      Ok(UserById(users, owners[k].userId))
  }

  /** The primary key of `HawkOwnership` lets at most one user own a serial. */
  lemma OneOwnerPerSerial(owners: seq<Ownership>, u: string, v: string, serial: int)
    requires UniqueBy(owners, OwnershipKey)
    requires Ownership(u, serial) in owners && Ownership(v, serial) in owners
    ensures u == v
  {
    var a :| 0 <= a < |owners| && owners[a] == Ownership(u, serial);
    var b :| 0 <= b < |owners| && owners[b] == Ownership(v, serial);
    assert OwnershipKey(owners[a]) == OwnershipKey(owners[b]);
  }

  /** Once a user registers a free serial, that user is its owner. */
  lemma RegisteredHawkOwner(owners: seq<Ownership>, users: seq<User>, userId: string, serial: int)
    requires UniqueBy(owners, OwnershipKey)
    requires forall o :: o in owners ==> o.serial != serial
    ensures HawkOwner(owners + [Ownership(userId, serial)], users, serial) == Ok(UserById(users, userId))
  {
    AppendKeepsUnique(owners, Ownership(userId, serial), OwnershipKey);
    assert Ownership(userId, serial) in owners + [Ownership(userId, serial)];
  }

  /**
   * The listing as its docstring describes it: every serial the user may view,
   * the owned serials not also granted, then the serials granted to the user or
   * to `'ALL'`; only which serials are listed is stated.
   */
  function VisibleSerialsCorrected(owners: seq<Ownership>, grants: seq<Grant>, userId: string): (r: seq<int>)
    ensures forall s :: s in r <==> CanViewCorrected(owners, grants, userId, s)
  {
    var listedRows := Filter(grants, (g: Grant) => g.userId == userId || g.userId == Everyone);
    var listed := SerialColumn(listedRows, (g: Grant) => g.serial);
    var ownedRows := Filter(owners, (o: Ownership) => o.userId == userId);
    var owned := SerialColumn(ownedRows, (o: Ownership) => o.serial);
    var r := Filter(owned, (s: int) => s !in listed) + listed;
    assert forall s :: s in listed <==> Grant(userId, s) in grants || Grant(Everyone, s) in grants by {
      forall s | s in listed
        ensures Grant(userId, s) in grants || Grant(Everyone, s) in grants
      {
        var k :| 0 <= k < |listed| && listed[k] == s;
        assert listedRows[k] in listedRows;
      }
      forall s | Grant(userId, s) in grants || Grant(Everyone, s) in grants
        ensures s in listed
      {
        var g := if Grant(userId, s) in grants then Grant(userId, s) else Grant(Everyone, s);
        assert g in listedRows;
        var k :| 0 <= k < |listedRows| && listedRows[k] == g;
        assert listed[k] == s;
      }
    }
    assert forall s :: s in owned <==> Ownership(userId, s) in owners by {
      forall s | s in owned
        ensures Ownership(userId, s) in owners
      {
        var k :| 0 <= k < |owned| && owned[k] == s;
        assert ownedRows[k] in ownedRows;
      }
      forall s | Ownership(userId, s) in owners
        ensures s in owned
      {
        assert Ownership(userId, s) in ownedRows;
        var k :| 0 <= k < |ownedRows| && ownedRows[k] == Ownership(userId, s);
        assert owned[k] == s;
      }
    }
    r
  }

  /** `fetch_notifications`: the rules of a serial when given, else of a user, else `ValueError`. */
  function RulesFor(rules: seq<Rule>, serial: Option<int>, userId: Option<string>): (r: Result<seq<Rule>, LoginError>)
    ensures serial.None? && userId.None? <==> r == Err(ValueError)
    ensures serial.Some? ==> r.Ok? && forall x :: x in r.value <==> x in rules && x.serial == serial.value
    ensures serial.None? && userId.Some? ==> r.Ok? && forall x :: x in r.value <==> x in rules && x.userId == userId.value
  {
    if serial.Some? then Ok(Filter(rules, (x: Rule) => x.serial == serial.value))
    else if userId.Some? then Ok(Filter(rules, (x: Rule) => x.userId == userId.value))
    else Err(ValueError)
  }

  // ---------------------------------------------------------------------------
  // Primary keys and deletions
  // ---------------------------------------------------------------------------

  function UserKey(u: User): string { u.userId }
  function OwnershipKey(o: Ownership): int { o.serial }
  function GrantKey(g: Grant): Grant { g }
  function RuleKey(x: Rule): string { x.id }

  /** Appending a row whose key is new keeps the key unique. */
  lemma AppendKeepsUnique<T, K>(s: seq<T>, x: T, key: T -> K)
    requires UniqueBy(s, key)
    requires forall y :: y in s ==> key(y) != key(x)
    ensures UniqueBy(s + [x], key)
  {
    var r := s + [x];
    forall a, b | 0 <= a < b < |r|
      ensures key(r[a]) != key(r[b])
    {
      if b == |s| {
        assert r[a] in s;
      } else {
        assert r[a] == s[a] && r[b] == s[b];
      }
    }
  }

  /** `DELETE FROM HawkOwnership WHERE user_id = ? and serial_number = ?`. */
  function WithoutOwnership(owners: seq<Ownership>, o: Ownership): (r: seq<Ownership>)
    ensures forall x :: x in r <==> x in owners && x != o
    ensures UniqueBy(owners, OwnershipKey) ==> UniqueBy(r, OwnershipKey)
  {
    var keep := (x: Ownership) => x != o;
    if UniqueBy(owners, OwnershipKey) then FilterKeepsUnique(owners, keep, OwnershipKey); Filter(owners, keep)
    else Filter(owners, keep)
  }

  /** `DELETE FROM HawkVisibility WHERE user_id = ? and serial_number = ?`. */
  function WithoutGrant(grants: seq<Grant>, g: Grant): (r: seq<Grant>)
    ensures forall x :: x in r <==> x in grants && x != g
    ensures UniqueBy(grants, GrantKey) ==> UniqueBy(r, GrantKey)
  {
    var keep := (x: Grant) => x != g;
    if UniqueBy(grants, GrantKey) then FilterKeepsUnique(grants, keep, GrantKey); Filter(grants, keep)
    else Filter(grants, keep)
  }

  /** `DELETE FROM HawkVisibility WHERE serial_number = ?`. */
  function WithoutSerial(grants: seq<Grant>, serial: int): (r: seq<Grant>)
    ensures forall x :: x in r <==> x in grants && x.serial != serial
    ensures UniqueBy(grants, GrantKey) ==> UniqueBy(r, GrantKey)
  {
    var keep := (x: Grant) => x.serial != serial;
    if UniqueBy(grants, GrantKey) then FilterKeepsUnique(grants, keep, GrantKey); Filter(grants, keep)
    else Filter(grants, keep)
  }

  /** `DELETE FROM Notifications WHERE notification_id = ?`. */
  function WithoutRule(rules: seq<Rule>, id: string): (r: seq<Rule>)
    ensures forall x :: x in r <==> x in rules && x.id != id
    ensures UniqueBy(rules, RuleKey) ==> UniqueBy(r, RuleKey)
  {
    var keep := (x: Rule) => x.id != id;
    if UniqueBy(rules, RuleKey) then FilterKeepsUnique(rules, keep, RuleKey); Filter(rules, keep)
    else Filter(rules, keep)
  }

  // ---------------------------------------------------------------------------
  // Deregistering a hawk
  // ---------------------------------------------------------------------------

  /**
   * `deregister_hawk` as written: the ownership row is deleted first, and then
   * `remove_all_hawk_visibility` checks ownership again, finds none and raises
   * `PermissionError`, so the visibility rows of the serial stay.
   * Result: (ownership rows, visibility rows, exception).
   */
  function Deregister(owners: seq<Ownership>, grants: seq<Grant>, userId: string, serial: int)
    : (seq<Ownership>, seq<Grant>, Option<LoginError>)
  {
    if Ownership(userId, serial) !in owners then (owners, grants, Some(PermissionError))
    else
      var owners' := WithoutOwnership(owners, Ownership(userId, serial));
      // The re-check in `remove_all_hawk_visibility`: the row was just deleted,
      // so this branch is always taken and the last line is never reached.
      if Ownership(userId, serial) !in owners' then (owners', grants, Some(PermissionError))
      else (owners', WithoutSerial(grants, serial), None)
  }

  /** The intended `deregister_hawk`: drop the serial's visibility rows, then its ownership. */
  function DeregisterCorrected(owners: seq<Ownership>, grants: seq<Grant>, userId: string, serial: int)
    : (r: (seq<Ownership>, seq<Grant>, Option<LoginError>))
    ensures Ownership(userId, serial) !in owners ==> r == (owners, grants, Some(PermissionError))
    ensures Ownership(userId, serial) in owners ==>
              r.2 == None
              && (forall o :: o in r.0 <==> o in owners && o != Ownership(userId, serial))
              && (forall g :: g in r.1 <==> g in grants && g.serial != serial)
  {
    if Ownership(userId, serial) !in owners then (owners, grants, Some(PermissionError))
    else (WithoutOwnership(owners, Ownership(userId, serial)), WithoutSerial(grants, serial), None)
  }

  /**
   * An owner's `deregister_hawk` as written always raises after giving up the
   * hawk, and every visibility row of that serial survives it.
   */
  lemma DeregisterLeavesGrants(owners: seq<Ownership>, grants: seq<Grant>, userId: string, serial: int)
    requires Ownership(userId, serial) in owners
    ensures var r := Deregister(owners, grants, userId, serial);
            r.2 == Some(PermissionError) && r.1 == grants
            && Ownership(userId, serial) !in r.0
            && forall o :: o in r.0 <==> o in owners && o != Ownership(userId, serial)
  {
    var owners' := WithoutOwnership(owners, Ownership(userId, serial));
    assert Ownership(userId, serial) !in owners';
  }

  /** A concrete case: owner "u" shares hawk 5 with "v"; after deregistering, "v" still has a grant on 5. */
  lemma DeregisterCounterexample()
    ensures var r := Deregister([Ownership("u", 5)], [Grant("v", 5)], "u", 5);
            r.2 == Some(PermissionError) && r.0 == [] && Grant("v", 5) in r.1
    ensures var r := DeregisterCorrected([Ownership("u", 5)], [Grant("v", 5)], "u", 5);
            r.2 == None && r.0 == [] && r.1 == []
  {
    DeregisterLeavesGrants([Ownership("u", 5)], [Grant("v", 5)], "u", 5);
  }

  // ---------------------------------------------------------------------------
  // The store
  // ---------------------------------------------------------------------------

  class LoginDatabase {
    var users: seq<User>
    var owners: seq<Ownership>
    var grants: seq<Grant>
    var rules: seq<Rule>

    /** The primary keys: user id, serial number, the whole visibility row, notification id. */
    predicate Valid()
      reads this
    {
      UniqueBy(users, UserKey) && UniqueBy(owners, OwnershipKey)
      && UniqueBy(grants, GrantKey) && UniqueBy(rules, RuleKey)
    }

    /** Opening the database file with the tables it already holds (all empty for a new file). */
    constructor (users: seq<User>, owners: seq<Ownership>, grants: seq<Grant>, rules: seq<Rule>)
      requires UniqueBy(users, UserKey) && UniqueBy(owners, OwnershipKey)
      requires UniqueBy(grants, GrantKey) && UniqueBy(rules, RuleKey)
      ensures Valid()
      ensures this.users == users && this.owners == owners && this.grants == grants && this.rules == rules
    {
      this.users := users;
      this.owners := owners;
      this.grants := grants;
      this.rules := rules;
    }

    function FetchUser(userId: string): Option<User>
      reads this
    {
      UserById(users, userId)
    }

    function FetchUserByEmail(email: string): Option<User>
      reads this
    {
      UserByEmail(users, email)
    }

    /** `check_unique_user_id`: false exactly for the ids already registered. */
    function CheckUniqueUserId(userId: string): (r: bool)
      reads this
      ensures r <==> forall u :: u in users ==> u.userId != userId
    {
      FetchUser(userId).None?
    }

    /**
     * `check_hawk_ownership`: whether the user owns the serial. Under the primary
     * key an owner is the one `fetch_hawk_owner` finds.
     */
    function CheckHawkOwnership(userId: string, serial: int): (r: bool)
      reads this
      ensures Valid() && r ==> FetchHawkOwner(serial) == Ok(FetchUser(userId))
    {
      Ownership(userId, serial) in owners
    }

    function CheckVisibilityPermissions(userId: string, serial: int): bool
      reads this
    {
      CanView(owners, grants, userId, serial)
    }

    function FetchVisibleSerialNumbers(userId: string): seq<int>
      reads this
    {
      VisibleSerials(owners, grants, userId)
    }

    function FetchNotifications(serial: Option<int>, userId: Option<string>): Result<seq<Rule>, LoginError>
      reads this
    {
      RulesFor(rules, serial, userId)
    }

    function FetchHawkOwner(serial: int): Result<Option<User>, LoginError>
      reads this
    {
      HawkOwner(owners, users, serial)
    }

    /**
     * `add_user`: draws ids from `candidates` (the successive `uuid4` values)
     * until one is unused, and appends the user; emails are not checked.
     */
    method AddUser(firstName: string, email: string, passwordHash: string, candidates: seq<string>)
      returns (userId: string)
      requires Valid()
      requires exists k :: 0 <= k < |candidates| && CheckUniqueUserId(candidates[k])
      modifies this`users
      ensures Valid()
      ensures exists k :: 0 <= k < |candidates| && candidates[k] == userId
                          && forall j :: 0 <= j < k ==> !old(CheckUniqueUserId(candidates[j]))
      ensures old(CheckUniqueUserId(userId))
      ensures users == old(users) + [User(userId, firstName, email, passwordHash)]
    {
      var i := 0;
      userId := candidates[0];
      while !CheckUniqueUserId(userId)
        invariant i < |candidates| && userId == candidates[i]
        invariant forall j :: 0 <= j < i ==> !CheckUniqueUserId(candidates[j])
        invariant exists k :: i <= k < |candidates| && CheckUniqueUserId(candidates[k])
        decreases |candidates| - i
      {
        i := i + 1;
        userId := candidates[i];
      }
      AppendKeepsUnique(users, User(userId, firstName, email, passwordHash), UserKey);
      users := users + [User(userId, firstName, email, passwordHash)];
    }

    /** `register_hawk`: an already owned serial violates the primary key and nothing changes. */
    method RegisterHawk(userId: string, serial: int) returns (err: Option<LoginError>)
      requires Valid()
      modifies this`owners
      ensures Valid()
      ensures (exists o :: o in old(owners) && o.serial == serial) ==> err == Some(IntegrityError) && owners == old(owners)
      ensures (forall o :: o in old(owners) ==> o.serial != serial) ==>
                err == None && owners == old(owners) + [Ownership(userId, serial)]
    {
      if exists o :: o in owners && o.serial == serial {
        return Some(IntegrityError);
      }
      AppendKeepsUnique(owners, Ownership(userId, serial), OwnershipKey);
      owners := owners + [Ownership(userId, serial)];
      return None;
    }

    /** `deregister_hawk`, as written (see `Deregister`). */
    method DeregisterHawk(userId: string, serial: int) returns (err: Option<LoginError>)
      requires Valid()
      modifies this`owners, this`grants
      ensures Valid()
      ensures (owners, grants, err) == Deregister(old(owners), old(grants), userId, serial)
    {
      if !CheckHawkOwnership(userId, serial) {
        return Some(PermissionError);
      }
      owners := WithoutOwnership(owners, Ownership(userId, serial));
      err := RemoveAllHawkVisibility(userId, serial);
    }

    /** `deregister_hawk` with the visibility rows removed while the caller still owns the hawk. */
    method DeregisterHawkCorrected(userId: string, serial: int) returns (err: Option<LoginError>)
      requires Valid()
      modifies this`owners, this`grants
      ensures Valid()
      ensures (owners, grants, err) == DeregisterCorrected(old(owners), old(grants), userId, serial)
    {
      if !CheckHawkOwnership(userId, serial) {
        return Some(PermissionError);
      }
      err := RemoveAllHawkVisibility(userId, serial);
      owners := WithoutOwnership(owners, Ownership(userId, serial));
    }

    /**
     * `add_hawk_visibility`: only the owner may grant; the target must be a
     * registered user or `'ALL'`; granting twice changes nothing.
     */
    method AddHawkVisibility(ownerId: string, serial: int, targetId: string) returns (err: Option<LoginError>)
      requires Valid()
      modifies this`grants
      ensures Valid()
      ensures !old(CheckHawkOwnership(ownerId, serial)) ==> err == Some(PermissionError) && grants == old(grants)
      ensures old(CheckHawkOwnership(ownerId, serial)) && targetId != Everyone && old(FetchUser(targetId)).None? ==>
                err == Some(ValueError) && grants == old(grants)
      ensures old(CheckHawkOwnership(ownerId, serial)) && (targetId == Everyone || old(FetchUser(targetId)).Some?) ==>
                err == None
                && grants == if Grant(targetId, serial) in old(grants) then old(grants)
                             else old(grants) + [Grant(targetId, serial)]
    {
      if !CheckHawkOwnership(ownerId, serial) {
        return Some(PermissionError);
      }
      if targetId != Everyone && FetchUser(targetId).None? {
        return Some(ValueError);
      }
      if Grant(targetId, serial) !in grants {
        AppendKeepsUnique(grants, Grant(targetId, serial), GrantKey);
        grants := grants + [Grant(targetId, serial)];
      }
      return None;
    }

    /** `remove_hawk_visibility`: removing `'ALL'` leaves the grants to single users. */
    method RemoveHawkVisibility(ownerId: string, serial: int, targetId: string) returns (err: Option<LoginError>)
      requires Valid()
      modifies this`grants
      ensures Valid()
      ensures !old(CheckHawkOwnership(ownerId, serial)) ==> err == Some(PermissionError) && grants == old(grants)
      ensures old(CheckHawkOwnership(ownerId, serial)) ==>
                err == None && grants == WithoutGrant(old(grants), Grant(targetId, serial))
    {
      if !CheckHawkOwnership(ownerId, serial) {
        return Some(PermissionError);
      }
      grants := WithoutGrant(grants, Grant(targetId, serial));
      return None;
    }

    /** `remove_all_hawk_visibility`: every visibility row of the serial goes. */
    method RemoveAllHawkVisibility(ownerId: string, serial: int) returns (err: Option<LoginError>)
      requires Valid()
      modifies this`grants
      ensures Valid()
      ensures !old(CheckHawkOwnership(ownerId, serial)) ==> err == Some(PermissionError) && grants == old(grants)
      ensures old(CheckHawkOwnership(ownerId, serial)) ==> err == None && grants == WithoutSerial(old(grants), serial)
    {
      if !CheckHawkOwnership(ownerId, serial) {
        return Some(PermissionError);
      }
      grants := WithoutSerial(grants, serial);
      return None;
    }

    /**
     * `add_notification`: a non-owner is refused before the sign is looked at; a
     * sign other than `>` or `<` returns without storing anything and without
     * raising; otherwise the rule is stored under the first unused id of
     * `candidates` (the retry after a duplicate `uuid4`). The result says whether
     * a rule was stored.
     */
    method AddNotification(userId: string, serial: int, hiveNumber: Option<int>, sensor: string, sign: string,
                           value: real, candidates: seq<string>) returns (r: Result<bool, LoginError>)
      requires Valid()
      requires CheckHawkOwnership(userId, serial) && (sign == ">" || sign == "<") ==>
                 exists k :: 0 <= k < |candidates| && forall x :: x in rules ==> x.id != candidates[k]
      modifies this`rules
      ensures Valid()
      ensures !old(CheckHawkOwnership(userId, serial)) ==> r == Err(PermissionError) && rules == old(rules)
      ensures old(CheckHawkOwnership(userId, serial)) && sign != ">" && sign != "<" ==> r == Ok(false) && rules == old(rules)
      ensures old(CheckHawkOwnership(userId, serial)) && (sign == ">" || sign == "<") ==>
                r == Ok(true)
                && exists id :: id in candidates && (forall x :: x in old(rules) ==> x.id != id)
                                && rules == old(rules) + [Rule(id, userId, serial, hiveNumber, sensor, sign, value)]
    {
      if !CheckHawkOwnership(userId, serial) {
        return Err(PermissionError);
      }
      if !(sign == ">" || sign == "<") {
        return Ok(false);
      }
      ghost var k :| 0 <= k < |candidates| && forall x :: x in rules ==> x.id != candidates[k];
      var i := 0;
      while exists x :: x in rules && x.id == candidates[i]
        invariant i < |candidates|
        invariant exists k :: i <= k < |candidates| && forall x :: x in rules ==> x.id != candidates[k]
        decreases |candidates| - i
      {
        i := i + 1;
      }
      var rule := Rule(candidates[i], userId, serial, hiveNumber, sensor, sign, value);
      AppendKeepsUnique(rules, rule, RuleKey);
      rules := rules + [rule];
      return Ok(true);
    }

    /**
     * `add_notification` raising `ValueError` for a bad sign, as its docstring
     * says: a call that returns normally has always stored a rule.
     */
    method AddNotificationCorrected(userId: string, serial: int, hiveNumber: Option<int>, sensor: string, sign: string,
                                    value: real, candidates: seq<string>) returns (r: Result<bool, LoginError>)
      requires Valid()
      requires CheckHawkOwnership(userId, serial) && (sign == ">" || sign == "<") ==>
                 exists k :: 0 <= k < |candidates| && forall x :: x in rules ==> x.id != candidates[k]
      modifies this`rules
      ensures Valid()
      ensures r.Ok? <==> old(CheckHawkOwnership(userId, serial)) && (sign == ">" || sign == "<")
      ensures r.Ok? ==> r.value && |rules| == |old(rules)| + 1 && rules[|rules| - 1].sign == sign
      ensures !old(CheckHawkOwnership(userId, serial)) ==> r == Err(PermissionError) && rules == old(rules)
      ensures old(CheckHawkOwnership(userId, serial)) && sign != ">" && sign != "<" ==> r == Err(ValueError) && rules == old(rules)
    {
      if CheckHawkOwnership(userId, serial) && !(sign == ">" || sign == "<") {
        return Err(ValueError);
      }
      if CheckHawkOwnership(userId, serial) {
        ghost var k :| 0 <= k < |candidates| && forall x :: x in rules ==> x.id != candidates[k];
      }
      r := AddNotification(userId, serial, hiveNumber, sensor, sign, value, candidates);
    }

    /** `remove_notification`: an unknown id is ignored; only the rule's own user may delete it. */
    method RemoveNotification(userId: string, id: string) returns (err: Option<LoginError>)
      requires Valid()
      modifies this`rules
      ensures Valid()
      ensures (forall x :: x in old(rules) ==> x.id != id) ==> err == None && rules == old(rules)
      ensures forall x :: x in old(rules) && x.id == id && x.userId == userId ==>
                err == None && rules == WithoutRule(old(rules), id)
      ensures forall x :: x in old(rules) && x.id == id && x.userId != userId ==>
                err == Some(PermissionError) && rules == old(rules)
    {
      var k := First(rules, (x: Rule) => x.id == id);
      if k.None? {
        return None;
      }
      if userId == rules[k.value].userId {
        rules := WithoutRule(rules, id);
        return None;
      }
      return Some(PermissionError);
    }
  }
}
