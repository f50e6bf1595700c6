/**
 The Linux connection inventory: which of a server's socket descriptors are its listener and its
 clients, read twice from the kernel's tables, and the count of clients other than the inspector.
 */
module Sockets {
  import opened Base

  // ---------------------------------------------------------------- kernel views

  /** A row of the Unix table; `Torn` is a row whose fields do not parse. */
  datatype UnixRow = UnixRow(protocol: nat, flags: nat, kind: nat, state: nat, inode: nat, path: string) | Torn

  /** A row of another protocol's table; `None` is a row whose fields do not parse. */
  type OtherRow = Option<nat>

  /** Reading a table: the protocol is disabled, the read or the header failed, or the rows. */
  datatype Reading<+T> = Missing | Failed | Rows(rows: seq<T>)

  datatype View = View(unix: Reading<UnixRow>, other: string -> Reading<OtherRow>)

  datatype Process = Process(start: string, namespace: string, fds: map<string, string>)

  datatype Entry = Entry(protocol: string, path: string, flags: nat, kind: nat, state: nat)

  type Entries = map<nat, Entry>

  const UNIX := "unix"
  const TABLES := ["tcp", "tcp6", "udp", "udp6", "netlink"]

  // ---------------------------------------------------------------- descriptor links

  const SOCKET := "socket:"
  const LINK := "socket:["

  /** The inode of a descriptor that is a socket; `None` when the link is malformed. */
  function LinkInode(link: string): (r: Option<nat>)
    ensures r.Some? ==> 0 < r.value < UINT64
  {
    if !(LINK <= link) || link[|link| - 1] != ']' then None
    else
      assert |link| > |LINK| by {
        assert LINK[|LINK| - 1] == '[';
        assert link[..|LINK|] == LINK;
      }
      var n := ParseUint(link[|LINK|..|link| - 1], 10);
      if n == Some(0) then None else n
  }

  /** A link is understood exactly when it is a positive 64-bit decimal numeral in its brackets. */
  lemma LinkExactly(link: string, n: nat)
    ensures LinkInode(link) == Some(n) <==> exists s :: link == "socket:[" + s + "]" && ParseUint(s, 10) == Some(n) && n > 0
  {
    if LinkInode(link) == Some(n) {
      var s := link[|LINK|..|link| - 1];
      assert link == "socket:[" + s + "]";
    }
    forall s | link == "socket:[" + s + "]" && ParseUint(s, 10) == Some(n) && n > 0 ensures LinkInode(link) == Some(n) {
      assert link[|LINK|..|link| - 1] == s;
    }
  }

  /** The link the kernel prints for an inode gives that inode back. */
  lemma LinkPrinted(n: nat, width: nat)
    requires 0 < n < UINT64 && width > 0
    ensures LinkInode("socket:[" + Digits(n, 10, width) + "]") == Some(n)
    ensures IsSocket("socket:[" + Digits(n, 10, width) + "]")
  {
    DigitsParse(n, 10, width);
    LinkExactly("socket:[" + Digits(n, 10, width) + "]", n);
  }

  predicate IsSocket(link: string) { SOCKET <= link }

  ghost predicate LinksParse(fds: map<string, string>) {
    forall f :: f in fds && IsSocket(fds[f]) ==> LinkInode(fds[f]).Some?
  }

  /** The inodes of the server's sockets. */
  ghost function Owned(fds: map<string, string>): set<nat> {
    set f | f in fds && IsSocket(fds[f]) && LinkInode(fds[f]).Some? :: LinkInode(fds[f]).value
  }

  lemma SomeName(s: set<string>) ensures s == {} || exists f :: f in s { }

  lemma SomeInode(s: set<nat>) ensures s == {} || exists i :: i in s { }

  method WantedInodes(fds: map<string, string>) returns (r: Option<set<nat>>)
    ensures r.Some? == LinksParse(fds)
    ensures r.Some? ==> r.value == Owned(fds)
  {
    var wanted: set<nat> := {};
    var todo := fds.Keys;
    while todo != {}
      invariant todo <= fds.Keys
      invariant forall f :: f in fds && f !in todo && IsSocket(fds[f]) ==>
        LinkInode(fds[f]).Some? && LinkInode(fds[f]).value in wanted
      invariant wanted <= Owned(fds)
      decreases todo
    {
      SomeName(todo);
      var f :| f in todo;
      if IsSocket(fds[f]) {
        var inode := LinkInode(fds[f]);
        if inode.None? {
          return None;
        }
        wanted := wanted + {inode.value};
      }
      todo := todo - {f};
    }
    r := Some(wanted);
  }

  // ---------------------------------------------------------------- tables

  /** Two rows that may stand in one table: no inode twice, except the kernel's own zero. */
  predicate Distinct(a: nat, b: nat) { a == 0 || a != b }

  ghost predicate UnixParses(rows: seq<UnixRow>) {
    && (forall i :: 0 <= i < |rows| ==> rows[i].UnixRow? && rows[i].protocol == 0)
    && (forall i, j {:trigger rows[i], rows[j]} :: 0 <= i < j < |rows| && rows[i].UnixRow? && rows[j].UnixRow? ==>
          Distinct(rows[i].inode, rows[j].inode))
  }

  function EntryOf(row: UnixRow): Entry
    requires row.UnixRow?
  {
    Entry(UNIX, row.path, row.flags, row.kind, row.state)
  }

  predicate RowAt(rows: seq<UnixRow>, i: int, n: nat) {
    0 <= i < |rows| && rows[i].UnixRow? && rows[i].inode == n && n != 0
  }

  /** The map holds the entry of each row with an inode, and nothing else. */
  ghost predicate Tabulates(rows: seq<UnixRow>, m: Entries) {
    && (forall i :: 0 <= i < |rows| && rows[i].UnixRow? && rows[i].inode != 0 ==>
          rows[i].inode in m && m[rows[i].inode] == EntryOf(rows[i]))
    && (forall n :: n in m ==> exists i :: RowAt(rows, i, n))
  }

  lemma TabulatesOnce(rows: seq<UnixRow>, m: Entries, m': Entries)
    requires Tabulates(rows, m) && Tabulates(rows, m')
    ensures m == m'
  {
    assert m.Keys == m'.Keys;
  }

  /** What one more row does to the map; a row without an inode does nothing. */
  function WithRow(m: Entries, row: UnixRow): Entries
    requires row.UnixRow?
  {
    if row.inode == 0 then m else m[row.inode := EntryOf(row)]
  }

  lemma TabulateRow(rows: seq<UnixRow>, k: nat, m: Entries)
    requires k < |rows| && rows[k].UnixRow? && rows[k].inode !in m && Tabulates(rows[..k], m)
    ensures Tabulates(rows[..k + 1], WithRow(m, rows[k]))
  {
    var m', rows' := WithRow(m, rows[k]), rows[..k + 1];
    forall n | n in m' ensures exists i :: RowAt(rows', i, n) {
      if n !in m {
        assert RowAt(rows', k, n);
      } else {
        var i :| RowAt(rows[..k], i, n);
        assert RowAt(rows', i, n);
      }
    }
  }

  lemma ParsesRow(rows: seq<UnixRow>, k: nat, m: Entries)
    requires k < |rows| && rows[k].UnixRow? && rows[k].protocol == 0 && rows[k].inode !in m
    requires Tabulates(rows[..k], m) && UnixParses(rows[..k])
    ensures UnixParses(rows[..k + 1])
  {
    var front, all := rows[..k], rows[..k + 1];
    assert forall i :: 0 <= i < k ==> all[i] == front[i];
    forall i, j | 0 <= i < j < k + 1 ensures Distinct(all[i].inode, all[j].inode) {
      assert all[i] == front[i];
      if j < k {
        assert Distinct(front[i].inode, front[j].inode);
      } else {
        assert all[j] == rows[k] && (front[i].inode != 0 ==> front[i].inode in m);
      }
    }
  }

  method ParseUnix(rows: seq<UnixRow>) returns (r: Option<Entries>)
    ensures r.Some? == UnixParses(rows)
    ensures r.Some? ==> Tabulates(rows, r.value)
  {
    var result: Entries := map[];
    var k := 0;
    while k < |rows|
      invariant 0 <= k <= |rows|
      invariant Tabulates(rows[..k], result) && UnixParses(rows[..k])
    {
      if rows[k].Torn? || rows[k].protocol != 0 {
        return None;
      }
      if rows[k].inode in result {
        return None;
      }
      TabulateRow(rows, k, result);
      ParsesRow(rows, k, result);
      if rows[k].inode != 0 {
        result := result[rows[k].inode := EntryOf(rows[k])];
      }
      k := k + 1;
    }
    assert rows[..k] == rows;
    r := Some(result);
  }

  ghost predicate OtherParses(rows: seq<OtherRow>) {
    && (forall i :: 0 <= i < |rows| ==> rows[i].Some?)
    && (forall i, j {:trigger rows[i], rows[j]} :: 0 <= i < j < |rows| && rows[i].Some? && rows[j].Some? ==>
          Distinct(rows[i].value, rows[j].value))
  }

  ghost function Listed(rows: seq<OtherRow>): set<nat> {
    set i | 0 <= i < |rows| && rows[i].Some? && rows[i].value != 0 :: rows[i].value
  }

  method ParseOther(rows: seq<OtherRow>) returns (r: Option<set<nat>>)
    ensures r.Some? == OtherParses(rows)
    ensures r.Some? ==> r.value == Listed(rows)
  {
    var result: set<nat> := {};
    var k := 0;
    while k < |rows|
      invariant 0 <= k <= |rows|
      invariant result == Listed(rows[..k]) && OtherParses(rows[..k])
    {
      if rows[k].None? {
        return None;
      }
      var inode := rows[k].value;
      if inode != 0 {
        if inode in result {
          var i :| 0 <= i < k && rows[..k][i].Some? && rows[..k][i].value == inode;
          assert !Distinct(rows[i].value, rows[k].value);
          return None;
        }
        assert forall i :: 0 <= i < k && rows[i].value != 0 ==> rows[..k][i].value in result;
        result := result + {inode};
      }
      k := k + 1;
    }
    assert rows[..k] == rows;
    r := Some(result);
  }

  // ---------------------------------------------------------------- classifying every socket

  function Plain(table: string): Entry { Entry(table, "", 0, 0, 0) }

  /** The entries the server owns. */
  function Restrict(wanted: set<nat>, m: Entries): Entries { map i | i in wanted && i in m :: m[i] }

  method PickUnix(wanted: set<nat>, unix: Entries) returns (result: Entries)
    ensures result == Restrict(wanted, unix)
  {
    result := map[];
    var todo := wanted;
    while todo != {}
      invariant todo <= wanted && result == Restrict(wanted - todo, unix)
      decreases todo
    {
      SomeInode(todo);
      var inode :| inode in todo;
      if inode in unix {
        result := result[inode := unix[inode]];
      }
      todo := todo - {inode};
    }
    assert wanted - todo == wanted;
  }

  function Extended(known: Entries, inodes: set<nat>, table: string): Entries {
    known + map i | i in inodes :: Plain(table)
  }

  /** The owned sockets of one more table; none of them may be known already. */
  function Merge(wanted: set<nat>, known: Entries, inodes: set<nat>, table: string): Option<Entries> {
    if inodes * wanted !! known.Keys then Some(Extended(known, inodes * wanted, table)) else None
  }

  method AddTable(wanted: set<nat>, known: Entries, inodes: set<nat>, table: string) returns (r: Option<Entries>)
    ensures r == Merge(wanted, known, inodes, table)
  {
    var result, todo := known, inodes;
    ghost var added: set<nat> := {};
    while todo != {}
      invariant todo <= inodes && added == (inodes - todo) * wanted && added !! known.Keys
      invariant result == Extended(known, added, table)
      decreases todo
    {
      SomeInode(todo);
      var inode :| inode in todo;
      if inode in wanted {
        if inode in result {
          assert inode in known.Keys;
          return None;
        }
        added := added + {inode};
        result := result[inode := Plain(table)];
      }
      todo := todo - {inode};
    }
    assert added == inodes * wanted;
    r := Some(result);
  }

  /** Tables are read in turn until every owned socket is classified. */
  ghost function Classify(wanted: set<nat>, result: Entries, tables: seq<string>, view: View): Option<Entries>
    decreases |tables|
  {
    if result.Keys == wanted then Some(result)
    else if tables == [] then None
    else
      match view.other(tables[0])
      case Missing => Classify(wanted, result, tables[1..], view)
      case Failed => None
      case Rows(rows) =>
        if !OtherParses(rows) || Merge(wanted, result, Listed(rows), tables[0]).None? then None
        else Classify(wanted, Merge(wanted, result, Listed(rows), tables[0]).value, tables[1..], view)
  }

  lemma SameSize(a: set<nat>, b: set<nat>)
    requires a <= b
    ensures |a| == |b| <==> a == b
  {
    if a != b {
      assert a + (b - a) == b;
      assert |b - a| > 0;
    }
  }

  method ReadTables(wanted: set<nat>, known: Entries, tables: seq<string>, view: View) returns (r: Option<Entries>)
    requires known.Keys <= wanted
    ensures r == Classify(wanted, known, tables, view)
  {
    var result, k := known, 0;
    while k < |tables|
      invariant 0 <= k <= |tables| && result.Keys <= wanted
      invariant Classify(wanted, result, tables[k..], view) == Classify(wanted, known, tables, view)
    {
      SameSize(result.Keys, wanted);
      if |result| == |wanted| {
        break;
      }
      var reading := view.other(tables[k]);
      if reading.Failed? {
        return None;
      }
      if reading.Rows? {
        var inodes := ParseOther(reading.rows);
        if inodes.None? {
          return None;
        }
        var merged := AddTable(wanted, result, inodes.value, tables[k]);
        if merged.None? {
          return None;
        }
        result := merged.value;
      }
      assert tables[k..][1..] == tables[k + 1..];
      k := k + 1;
    }
    SameSize(result.Keys, wanted);
    if |result| != |wanted| {
      return None;
    }
    r := Some(result);
  }

  ghost function UnixInodes(rows: seq<UnixRow>): set<nat> {
    set i | 0 <= i < |rows| && rows[i].UnixRow? && rows[i].inode != 0 :: rows[i].inode
  }

  ghost function RowOf(rows: seq<UnixRow>, n: nat): Entry
    requires n in UnixInodes(rows)
  {
    assert exists i :: RowAt(rows, i, n) by {
      var i :| 0 <= i < |rows| && rows[i].UnixRow? && rows[i].inode != 0 && rows[i].inode == n;
      assert RowAt(rows, i, n);
    }
    var i :| RowAt(rows, i, n);
    EntryOf(rows[i])
  }

  ghost function UnixMap(rows: seq<UnixRow>): Entries { map n | n in UnixInodes(rows) :: RowOf(rows, n) }

  lemma OneRow(rows: seq<UnixRow>, i: int, j: int, n: nat)
    requires UnixParses(rows) && RowAt(rows, i, n) && RowAt(rows, j, n)
    ensures i == j
  {
  }

  lemma UnixMapTabulates(rows: seq<UnixRow>)
    requires UnixParses(rows)
    ensures Tabulates(rows, UnixMap(rows))
  {
    var m := UnixMap(rows);
    forall i | 0 <= i < |rows| && rows[i].inode != 0
      ensures rows[i].inode in m && m[rows[i].inode] == EntryOf(rows[i])
    {
      var n := rows[i].inode;
      assert RowAt(rows, i, n) && n in UnixInodes(rows);
      forall j | RowAt(rows, j, n) ensures j == i {
        OneRow(rows, i, j, n);
      }
    }
    forall n | n in m ensures exists i :: RowAt(rows, i, n) {
      var i :| 0 <= i < |rows| && rows[i].UnixRow? && rows[i].inode != 0 && rows[i].inode == n;
      assert RowAt(rows, i, n);
    }
  }

  ghost predicate Readable(fds: map<string, string>, view: View) {
    LinksParse(fds) && view.unix.Rows? && UnixParses(view.unix.rows)
  }

  /** The owned sockets that the Unix table lists. */
  ghost function OwnedUnix(fds: map<string, string>, view: View): Entries
    requires Readable(fds, view)
  {
    Restrict(Owned(fds), UnixMap(view.unix.rows))
  }

  /** One reading of the tables: every socket the server owns, classified. */
  ghost function Survey(fds: map<string, string>, view: View): Option<Entries> {
    if !Readable(fds, view) then None else Classify(Owned(fds), OwnedUnix(fds, view), TABLES, view)
  }

  method ReadSockets(fds: map<string, string>, view: View) returns (r: Option<Entries>)
    ensures r == Survey(fds, view)
  {
    var wanted := WantedInodes(fds);
    if wanted.None? || !view.unix.Rows? {
      return None;
    }
    var unix := ParseUnix(view.unix.rows);
    if unix.None? {
      return None;
    }
    UnixMapTabulates(view.unix.rows);
    TabulatesOnce(view.unix.rows, unix.value, UnixMap(view.unix.rows));
    var known := PickUnix(wanted.value, unix.value);
    r := ReadTables(wanted.value, known, TABLES, view);
  }

  // ---------------------------------------------------------------- counting

  predicate OnPath(e: Entry, socket: string) { e.protocol == UNIX && e.path == socket }

  predicate IsListener(e: Entry) { e.kind == 1 && e.flags == 0x10000 && e.state == 1 }

  predicate IsClient(e: Entry) { e.kind == 1 && e.flags == 0 && e.state == 3 }

  ghost function Listeners(m: Entries, socket: string): set<nat> {
    set i | i in m && OnPath(m[i], socket) && IsListener(m[i])
  }

  ghost function Clients(m: Entries, socket: string): set<nat> {
    set i | i in m && OnPath(m[i], socket) && IsClient(m[i])
  }

  ghost predicate Verified(m: Entries, socket: string) {
    forall i :: i in m && OnPath(m[i], socket) ==> IsListener(m[i]) || IsClient(m[i])
  }

  ghost function Count(m: Entries, socket: string): Option<nat> {
    if Verified(m, socket) && |Listeners(m, socket)| == 1 && |Clients(m, socket)| >= 1
    then Some(|Clients(m, socket)| - 1) else None
  }

  /** What the loop has counted after some of the entries. */
  ghost predicate Tallied(m: Entries, seen: set<nat>, socket: string, listeners: nat, connected: nat) {
    && Verified(Restrict(seen, m), socket)
    && listeners == |Listeners(Restrict(seen, m), socket)|
    && connected == |Clients(Restrict(seen, m), socket)|
  }

  /** One more entry adds itself to the set of its role, and to no other. */
  lemma AddEntry(m: Entries, i: nat, e: Entry, socket: string)
    requires i !in m
    ensures Listeners(m[i := e], socket) == Listeners(m, socket) + (if OnPath(e, socket) && IsListener(e) then {i} else {})
    ensures Clients(m[i := e], socket) == Clients(m, socket) + (if OnPath(e, socket) && IsClient(e) then {i} else {})
    ensures Verified(m[i := e], socket) <==>
      Verified(m, socket) && (OnPath(e, socket) ==> IsListener(e) || IsClient(e))
    ensures i !in Listeners(m, socket) && i !in Clients(m, socket)
  {
    var m' := m[i := e];
    assert forall j :: j in m ==> m'[j] == m[j];
    assert m'[i] == e;
  }

  lemma RestrictOne(m: Entries, seen: set<nat>, i: nat)
    requires i in m
    ensures Restrict(seen + {i}, m) == Restrict(seen, m)[i := m[i]]
  {
  }

  lemma TallyOne(m: Entries, seen: set<nat>, socket: string, listeners: nat, connected: nat, i: nat)
    requires Tallied(m, seen, socket, listeners, connected) && i in m && i !in seen
    requires OnPath(m[i], socket) ==> IsListener(m[i]) || IsClient(m[i])
    ensures Tallied(m, seen + {i}, socket,
                    if OnPath(m[i], socket) && IsListener(m[i]) then listeners + 1 else listeners,
                    if OnPath(m[i], socket) && IsClient(m[i]) then connected + 1 else connected)
  {
    AddEntry(Restrict(seen, m), i, m[i], socket);
    RestrictOne(m, seen, i);
  }

  method Tally(m: Entries, socket: string) returns (r: Option<nat>)
    ensures r == Count(m, socket)
  {
    var listeners, connected, todo := 0, 0, m.Keys;
    while todo != {}
      invariant todo <= m.Keys && listeners >= 0 && connected >= 0
      invariant Tallied(m, m.Keys - todo, socket, listeners, connected)
      decreases todo
    {
      SomeInode(todo);
      var i :| i in todo;
      if m[i].protocol == UNIX && m[i].path == socket {
        if m[i].kind == 1 && m[i].flags == 0x10000 && m[i].state == 1 {
          TallyOne(m, m.Keys - todo, socket, listeners, connected, i);
          listeners := listeners + 1;
        } else if m[i].kind == 1 && m[i].flags == 0 && m[i].state == 3 {
          TallyOne(m, m.Keys - todo, socket, listeners, connected, i);
          connected := connected + 1;
        } else {
          return None;
        }
      } else {
        TallyOne(m, m.Keys - todo, socket, listeners, connected, i);
      }
      assert m.Keys - (todo - {i}) == m.Keys - todo + {i};
      todo := todo - {i};
    }
    assert Restrict(m.Keys - todo, m) == m;
    r := if listeners != 1 || connected < 1 then None else Some(connected - 1);
  }

  // ---------------------------------------------------------------- the inventory

  /** Two snapshots and two readings must agree before anything is counted. */
  ghost function Inventory(before: Option<Process>, first: View, second: View, after: Option<Process>, socket: string): Option<nat> {
    if before.None? || before != after then None
    else if Survey(before.value.fds, first).None? || Survey(before.value.fds, first) != Survey(before.value.fds, second) then None
    else Count(Survey(before.value.fds, first).value, socket)
  }

  /** `clean`: the path is in the form `filepath.Clean` gives; `late`: the deadline passed during the readings. */
  method Connections(pid: int, clean: bool, late: bool, before: Option<Process>, first: View, second: View,
                     after: Option<Process>, socket: string) returns (r: Option<nat>)
    ensures r == if pid > 0 && "/" <= socket && clean && !late then Inventory(before, first, second, after, socket) else None
  {
    if pid <= 0 || !("/" <= socket) || !clean || before.None? {
      return None;
    }
    var one := ReadSockets(before.value.fds, first);
    if one.None? {
      return None;
    }
    var two := ReadSockets(before.value.fds, second);
    if two.None? || after.None? {
      return None;
    }
    var b, a := before.value, after.value;
    if b.start != a.start || b.namespace != a.namespace || b.fds != a.fds || one != two || late {
      return None;
    }
    r := Tally(one.value, socket);
  }

  // ---------------------------------------------------------------- what the count means

  /** Every inode that one of the tables lists. */
  ghost function ListedIn(view: View, tables: seq<string>): set<nat> {
    if tables == [] then {}
    else (if view.other(tables[0]).Rows? then Listed(view.other(tables[0]).rows) else {}) + ListedIn(view, tables[1..])
  }

  /** Reading on keeps what is known, and calls nothing more a Unix socket. */
  ghost predicate Refines(known: Entries, m: Entries, rest: set<nat>) {
    && (forall i :: i in known ==> i in m && m[i] == known[i])
    && (forall i :: i in m && i !in known ==> m[i].protocol != UNIX && i in rest)
  }

  lemma {:induction false} ClassifySound(wanted: set<nat>, known: Entries, tables: seq<string>, view: View)
    requires UNIX !in tables
    ensures var r := Classify(wanted, known, tables, view);
      r.Some? ==> r.value.Keys == wanted && Refines(known, r.value, ListedIn(view, tables))
    decreases |tables|
  {
    if known.Keys != wanted && tables != [] {
      var reading := view.other(tables[0]);
      if reading.Missing? {
        ClassifySound(wanted, known, tables[1..], view);
      } else if reading.Rows? && Merge(wanted, known, Listed(reading.rows), tables[0]).Some? {
        ClassifySound(wanted, Merge(wanted, known, Listed(reading.rows), tables[0]).value, tables[1..], view);
      }
    }
  }

  lemma SameCount(u: Entries, m: Entries, rest: set<nat>, socket: string)
    requires Refines(u, m, rest)
    ensures Count(m, socket) == Count(u, socket)
  {
    SameSets(u, m, rest, socket);
  }

  lemma SameSets(u: Entries, m: Entries, rest: set<nat>, socket: string)
    requires Refines(u, m, rest)
    ensures Clients(m, socket) == Clients(u, socket) && Listeners(m, socket) == Listeners(u, socket)
    ensures Verified(m, socket) == Verified(u, socket)
  {
    assert forall i :: i in m && OnPath(m[i], socket) ==> i in u;
  }

  lemma UnixIsNoOther()
    ensures UNIX !in TABLES
  {
    assert UNIX[1] == 'n';
    assert forall i :: 0 <= i < |TABLES| ==> TABLES[i][1] != 'n';
  }

  /** Sockets of other protocols play no part in the count. */
  lemma CountIsUnix(fds: map<string, string>, view: View, socket: string)
    requires Survey(fds, view).Some?
    ensures Count(Survey(fds, view).value, socket) == Count(OwnedUnix(fds, view), socket)
    ensures Survey(fds, view).value.Keys == Owned(fds)
    ensures Owned(fds) <= UnixInodes(view.unix.rows) + ListedIn(view, TABLES)
  {
    var m, u := Survey(fds, view).value, OwnedUnix(fds, view);
    UnixIsNoOther();
    ClassifySound(Owned(fds), u, TABLES, view);
    SameCount(u, m, ListedIn(view, TABLES), socket);
  }

  /** A row of the Unix table that one of the server's descriptors refers to, on the socket's path. */
  ghost predicate OwnRow(fds: map<string, string>, row: UnixRow, socket: string) {
    row.UnixRow? && row.inode in Owned(fds) && row.path == socket
  }

  /** The distinct inodes of the server's connected streams on the path, read off the table itself. */
  ghost function ConnectedInodes(fds: map<string, string>, rows: seq<UnixRow>, socket: string): set<nat> {
    set k | 0 <= k < |rows| && OwnRow(fds, rows[k], socket) && rows[k].kind == 1 && rows[k].flags == 0 && rows[k].state == 3
      :: rows[k].inode
  }

  ghost function ListeningInodes(fds: map<string, string>, rows: seq<UnixRow>, socket: string): set<nat> {
    set k | 0 <= k < |rows| && OwnRow(fds, rows[k], socket) && rows[k].kind == 1 && rows[k].flags == 0x10000 && rows[k].state == 1
      :: rows[k].inode
  }

  lemma OwnedPositive(fds: map<string, string>)
    ensures 0 !in Owned(fds)
  {
  }

  /** The owned entries on the path are the owned rows on the path. */
  lemma RowsAreEntries(fds: map<string, string>, view: View, socket: string)
    requires Readable(fds, view)
    ensures var rows, u := view.unix.rows, OwnedUnix(fds, view);
      && (forall k :: 0 <= k < |rows| && OwnRow(fds, rows[k], socket) ==>
            rows[k].inode in u && u[rows[k].inode] == EntryOf(rows[k]))
      && (forall n :: n in u && OnPath(u[n], socket) ==>
            exists k :: RowAt(rows, k, n) && OwnRow(fds, rows[k], socket) && u[n] == EntryOf(rows[k]))
  {
    var rows, u := view.unix.rows, OwnedUnix(fds, view);
    UnixMapTabulates(rows);
    OwnedPositive(fds);
    forall n | n in u && OnPath(u[n], socket)
      ensures exists k :: RowAt(rows, k, n) && OwnRow(fds, rows[k], socket) && u[n] == EntryOf(rows[k])
    {
      var k :| RowAt(rows, k, n);
      assert UnixMap(rows)[n] == EntryOf(rows[k]);
    }
  }

  lemma RowSets(fds: map<string, string>, view: View, socket: string)
    requires Readable(fds, view)
    ensures Clients(OwnedUnix(fds, view), socket) == ConnectedInodes(fds, view.unix.rows, socket)
    ensures Listeners(OwnedUnix(fds, view), socket) == ListeningInodes(fds, view.unix.rows, socket)
  {
    RowsAreEntries(fds, view, socket);
  }

  /** The answer, read off the rows, once a survey has succeeded. */
  lemma CountExact(fds: map<string, string>, view: View, socket: string, n: nat)
    requires Survey(fds, view).Some?
    ensures Count(Survey(fds, view).value, socket) == Some(n) <==>
      && Verified(OwnedUnix(fds, view), socket)
      && |ListeningInodes(fds, view.unix.rows, socket)| == 1
      && |ConnectedInodes(fds, view.unix.rows, socket)| == n + 1
  {
    CountIsUnix(fds, view, socket);
    RowSets(fds, view, socket);
  }

  /** A survey lists every socket descriptor. */
  lemma SurveyListsAll(fds: map<string, string>, view: View, f: string)
    requires Survey(fds, view).Some? && f in fds && IsSocket(fds[f])
    ensures LinkInode(fds[f]).Some? && LinkInode(fds[f]).value in UnixInodes(view.unix.rows) + ListedIn(view, TABLES)
  {
    CountIsUnix(fds, view, "");
    assert LinkInode(fds[f]).value in Owned(fds);
  }

  /**
   The inventory answers n exactly when both snapshots and both readings agree, every owned row on
   the path is a listener or a connected stream, one distinct inode listens and n + 1 are connected.
   */
  lemma InventoryExact(p: Process, first: View, second: View, after: Option<Process>, socket: string, n: nat)
    ensures Inventory(Some(p), first, second, after, socket) == Some(n) <==>
      && after == Some(p) && Survey(p.fds, first).Some? && Survey(p.fds, first) == Survey(p.fds, second)
      && Verified(OwnedUnix(p.fds, first), socket)
      && |ListeningInodes(p.fds, first.unix.rows, socket)| == 1
      && |ConnectedInodes(p.fds, first.unix.rows, socket)| == n + 1
  {
    if Survey(p.fds, first).Some? {
      CountExact(p.fds, first, socket, n);
    }
  }

  lemma SameOwned(fds: map<string, string>, fds': map<string, string>)
    requires fds.Values == fds'.Values
    ensures Owned(fds) == Owned(fds') && LinksParse(fds) == LinksParse(fds')
  {
    assert forall f :: f in fds ==> fds[f] in fds'.Values;
    assert forall f :: f in fds' ==> fds'[f] in fds.Values;
  }

  /** Only which links there are matters, not how many descriptors hold each: duplicates never count. */
  lemma DuplicatesDoNotCount(p: Process, q: Process, first: View, second: View, socket: string)
    requires p.fds.Values == q.fds.Values
    ensures Inventory(Some(p), first, second, Some(p), socket) == Inventory(Some(q), first, second, Some(q), socket)
  {
    SameOwned(p.fds, q.fds);
  }

  lemma OwnOneMore(fds: map<string, string>, f: string, link: string)
    requires f !in fds && IsSocket(link) && LinkInode(link).Some?
    ensures Owned(fds[f := link]) == Owned(fds) + {LinkInode(link).value}
    ensures LinksParse(fds[f := link]) == LinksParse(fds)
  {
    var fds' := fds[f := link];
    assert fds'[f] == link;
    assert forall g :: g in fds ==> g in fds' && fds'[g] == fds[g];
  }

  lemma UnixOneMore(fds: map<string, string>, f: string, link: string, view: View)
    requires f !in fds && IsSocket(link) && LinkInode(link).Some? && Readable(fds, view)
    ensures Readable(fds[f := link], view)
    ensures var i, u := LinkInode(link).value, UnixMap(view.unix.rows);
      OwnedUnix(fds[f := link], view) == if i in u then OwnedUnix(fds, view)[i := u[i]] else OwnedUnix(fds, view)
  {
    OwnOneMore(fds, f, link);
  }

  /** What a newly owned socket is to the inspected path. */
  datatype Kind = Unrelated | Client | Unacceptable

  ghost function KindOf(i: nat, rows: seq<UnixRow>, socket: string): Kind {
    if i !in UnixMap(rows) || !OnPath(UnixMap(rows)[i], socket) then Unrelated
    else if IsClient(UnixMap(rows)[i]) then Client else Unacceptable
  }

  lemma CountOneMore(u: Entries, i: nat, e: Entry, socket: string, n: nat)
    requires i !in u && Count(u, socket) == Some(n)
    ensures Count(u[i := e], socket) ==
      if !OnPath(e, socket) then Some(n) else if IsClient(e) then Some(n + 1) else None
  {
    AddEntry(u, i, e, socket);
  }

  /** The answer after one more socket of a kind. */
  function Next(kind: Kind, was: nat): Option<nat> {
    match kind
    case Unrelated => Some(was)
    case Client => Some(was + 1)
    case Unacceptable => None
  }

  lemma OneMoreCount(fds: map<string, string>, f: string, link: string, view: View, socket: string, was: nat)
    requires f !in fds && IsSocket(link) && LinkInode(link).Some? && LinkInode(link).value !in Owned(fds)
    requires Readable(fds, view) && Count(OwnedUnix(fds, view), socket) == Some(was)
    ensures Readable(fds[f := link], view)
    ensures Count(OwnedUnix(fds[f := link], view), socket) == Next(KindOf(LinkInode(link).value, view.unix.rows, socket), was)
  {
    var i, u := LinkInode(link).value, UnixMap(view.unix.rows);
    UnixOneMore(fds, f, link, view);
    if i in u {
      assert i !in OwnedUnix(fds, view);
      CountOneMore(OwnedUnix(fds, view), i, u[i], socket, was);
    }
  }

  /** The answer when nothing changes between the readings. */
  ghost function Steady(fds: map<string, string>, view: View, socket: string): Option<nat> {
    if Survey(fds, view).None? then None else Count(OwnedUnix(fds, view), socket)
  }

  lemma SteadyInventory(p: Process, view: View, socket: string)
    ensures Inventory(Some(p), view, view, Some(p), socket) == Steady(p.fds, view, socket)
  {
    if Survey(p.fds, view).Some? {
      CountIsUnix(p.fds, view, socket);
    }
  }

  /**
   With one more socket open, the inventory refuses if the socket cannot be classified; otherwise
   its answer is one more for a client, the same for an unrelated socket, and a refusal for anything
   else on the path.
   */
  lemma OneMoreSocket(p: Process, f: string, link: string, view: View, socket: string, was: nat)
    requires f !in p.fds && IsSocket(link) && LinkInode(link).Some? && LinkInode(link).value !in Owned(p.fds)
    requires Inventory(Some(p), view, view, Some(p), socket) == Some(was)
    ensures var q := p.(fds := p.fds[f := link]);
      Inventory(Some(q), view, view, Some(q), socket) ==
        if Survey(q.fds, view).None? then None else Next(KindOf(LinkInode(link).value, view.unix.rows, socket), was)
  {
    SteadyInventory(p, view, socket);
    OneMoreCount(p.fds, f, link, view, socket, was);
    SteadyInventory(p.(fds := p.fds[f := link]), view, socket);
  }

  // ---------------------------------------------------------------- coherent tables

  /** The inodes a reading lists. */
  ghost function InodesOf(r: Reading<OtherRow>): set<nat> { if r.Rows? then Listed(r.rows) else {} }

  ghost predicate TableOk(r: Reading<OtherRow>) { r.Missing? || (r.Rows? && OtherParses(r.rows)) }

  /** Tables as the kernel keeps them: each parses, and no socket is in two of them. */
  ghost predicate Coherent(view: View, known: set<nat>, tables: seq<string>) {
    && (forall k :: 0 <= k < |tables| ==> TableOk(view.other(tables[k])) && InodesOf(view.other(tables[k])) !! known)
    && (forall j, k :: 0 <= j < k < |tables| ==> InodesOf(view.other(tables[j])) !! InodesOf(view.other(tables[k])))
  }

  lemma CoherentRest(view: View, known: set<nat>, tables: seq<string>, known': set<nat>)
    requires tables != [] && Coherent(view, known, tables) && known' <= known + InodesOf(view.other(tables[0]))
    ensures Coherent(view, known', tables[1..])
  {
    forall k | 0 <= k < |tables[1..]|
      ensures TableOk(view.other(tables[1..][k])) && InodesOf(view.other(tables[1..][k])) !! known'
    {
      assert tables[1..][k] == tables[k + 1];
      assert InodesOf(view.other(tables[0])) !! InodesOf(view.other(tables[k + 1]));
    }
  }

  lemma {:induction false} ClassifyCoherent(wanted: set<nat>, known: Entries, tables: seq<string>, view: View)
    requires known.Keys <= wanted && Coherent(view, known.Keys, tables)
    ensures Classify(wanted, known, tables, view).Some? <==> wanted <= known.Keys + ListedIn(view, tables)
    decreases |tables|
  {
    if known.Keys != wanted && tables != [] {
      var reading := view.other(tables[0]);
      if reading.Missing? {
        CoherentRest(view, known.Keys, tables, known.Keys);
        ClassifyCoherent(wanted, known, tables[1..], view);
      } else {
        assert TableOk(reading);
        var known' := Merge(wanted, known, Listed(reading.rows), tables[0]).value;
        CoherentRest(view, known.Keys, tables, known'.Keys);
        ClassifyCoherent(wanted, known', tables[1..], view);
      }
    }
  }

  /** On coherent tables a server is classified exactly when some table lists each of its sockets. */
  lemma SurveyExact(fds: map<string, string>, view: View)
    requires Readable(fds, view) && Coherent(view, UnixInodes(view.unix.rows), TABLES)
    ensures Survey(fds, view).Some? <==> Owned(fds) <= UnixInodes(view.unix.rows) + ListedIn(view, TABLES)
  {
    var u := OwnedUnix(fds, view);
    assert u.Keys == Owned(fds) * UnixInodes(view.unix.rows);
    ClassifyCoherent(Owned(fds), u, TABLES, view);
  }

  /** On coherent tables a newly opened socket is classified exactly when some table lists it. */
  lemma OneMoreIsClassified(fds: map<string, string>, f: string, link: string, view: View)
    requires f !in fds && IsSocket(link) && LinkInode(link).Some?
    requires Readable(fds, view) && Coherent(view, UnixInodes(view.unix.rows), TABLES) && Survey(fds, view).Some?
    ensures Survey(fds[f := link], view).Some? <==>
      LinkInode(link).value in UnixInodes(view.unix.rows) + ListedIn(view, TABLES)
  {
    OwnOneMore(fds, f, link);
    SurveyExact(fds, view);
    SurveyExact(fds[f := link], view);
  }

  // ---------------------------------------------------------------- exactly when a reading succeeds

  /** What is known after the first `k` tables. */
  ghost function KnownAfter(known: set<nat>, tables: seq<string>, view: View, k: nat): set<nat>
    requires k <= |tables|
  {
    known + ListedIn(view, tables[..k])
  }

  /** Table `j` had to be read: it was missing or well formed, and repeated no owned socket already known. */
  ghost predicate ReadOn(wanted: set<nat>, known: set<nat>, tables: seq<string>, view: View, j: nat)
    requires j < |tables|
  {
    && !(wanted <= KnownAfter(known, tables, view, j))
    && TableOk(view.other(tables[j]))
    && InodesOf(view.other(tables[j])) * wanted !! KnownAfter(known, tables, view, j)
  }

  /** The first `k` tables were read and after them every owned socket is known. */
  ghost predicate Enough(wanted: set<nat>, known: set<nat>, tables: seq<string>, view: View, k: nat) {
    && k <= |tables| && wanted <= KnownAfter(known, tables, view, k)
    && forall j: nat :: j < k ==> ReadOn(wanted, known, tables, view, j)
  }

  /** Reading one table first shifts the count of tables by one. */
  lemma KnownShift(wanted: set<nat>, known: set<nat>, later: set<nat>, tables: seq<string>, view: View, k: nat)
    requires tables != [] && k < |tables| && later * wanted == (known + InodesOf(view.other(tables[0]))) * wanted
    ensures KnownAfter(known, tables, view, k + 1) * wanted == KnownAfter(later, tables[1..], view, k) * wanted
  {
    var here, rest := InodesOf(view.other(tables[0])), ListedIn(view, tables[1..][..k]);
    assert tables[..k + 1][0] == tables[0] && tables[..k + 1][1..] == tables[1..][..k];
    assert ListedIn(view, tables[..k + 1]) == here + rest;
    assert (known + (here + rest)) * wanted == (known + here) * wanted + rest * wanted;
    assert (later + rest) * wanted == later * wanted + rest * wanted;
  }

  lemma EnoughShift(wanted: set<nat>, known: set<nat>, later: set<nat>, tables: seq<string>, view: View, k: nat)
    requires tables != [] && k < |tables| && later * wanted == (known + InodesOf(view.other(tables[0]))) * wanted
    requires ReadOn(wanted, known, tables, view, 0)
    ensures Enough(wanted, known, tables, view, k + 1) <==> Enough(wanted, later, tables[1..], view, k)
  {
    KnownShift(wanted, known, later, tables, view, k);
    SameWithin(wanted, KnownAfter(known, tables, view, k + 1), KnownAfter(later, tables[1..], view, k), {});
    forall j: nat | j < k ensures ReadOn(wanted, known, tables, view, j + 1) <==> ReadOn(wanted, later, tables[1..], view, j) {
      ReadShift(wanted, known, later, tables, view, j);
    }
    if Enough(wanted, later, tables[1..], view, k) {
      forall j: nat | j < k + 1 ensures ReadOn(wanted, known, tables, view, j) {
        if j > 0 {
          assert ReadOn(wanted, later, tables[1..], view, j - 1);
        }
      }
    }
    if Enough(wanted, known, tables, view, k + 1) {
      forall j: nat | j < k ensures ReadOn(wanted, later, tables[1..], view, j) {
        assert ReadOn(wanted, known, tables, view, j + 1);
      }
    }
  }

  lemma ReadShift(wanted: set<nat>, known: set<nat>, later: set<nat>, tables: seq<string>, view: View, j: nat)
    requires tables != [] && j + 1 < |tables| && later * wanted == (known + InodesOf(view.other(tables[0]))) * wanted
    ensures ReadOn(wanted, known, tables, view, j + 1) <==> ReadOn(wanted, later, tables[1..], view, j)
  {
    KnownShift(wanted, known, later, tables, view, j);
    SameWithin(wanted, KnownAfter(known, tables, view, j + 1), KnownAfter(later, tables[1..], view, j), InodesOf(view.other(tables[j + 1])));
  }

  lemma SameWithin(wanted: set<nat>, a: set<nat>, b: set<nat>, s: set<nat>)
    requires a * wanted == b * wanted
    ensures wanted <= a <==> wanted <= b
    ensures s * wanted !! a <==> s * wanted !! b
  {
    assert forall i :: i in wanted ==> (i in a <==> i in a * wanted) && (i in b <==> i in b * wanted);
  }

  lemma NothingRead(wanted: set<nat>, known: set<nat>, tables: seq<string>, view: View)
    ensures Enough(wanted, known, tables, view, 0) <==> wanted <= known
    ensures forall k: nat :: k > 0 && Enough(wanted, known, tables, view, k) ==> ReadOn(wanted, known, tables, view, 0)
  {
    assert tables[..0] == [];
  }

  /** Whatever comes first, a reading that succeeds reads some number of tables, each in order. */
  lemma {:induction false} ClassifyExactly(wanted: set<nat>, known: Entries, tables: seq<string>, view: View)
    requires known.Keys <= wanted
    ensures Classify(wanted, known, tables, view).Some? <==> exists k: nat :: Enough(wanted, known.Keys, tables, view, k)
    decreases |tables|
  {
    NothingRead(wanted, known.Keys, tables, view);
    if known.Keys == wanted {
      assert Enough(wanted, known.Keys, tables, view, 0);
    } else if tables != [] && ReadOn(wanted, known.Keys, tables, view, 0) {
      assert tables[..0] == [];
      var reading := view.other(tables[0]);
      var next := if reading.Rows? then Merge(wanted, known, Listed(reading.rows), tables[0]).value else known;
      ClassifyExactly(wanted, next, tables[1..], view);
      forall k: nat | k < |tables|
        ensures Enough(wanted, known.Keys, tables, view, k + 1) <==> Enough(wanted, next.Keys, tables[1..], view, k)
      {
        EnoughShift(wanted, known.Keys, next.Keys, tables, view, k);
      }
      ShiftExists(wanted, known.Keys, next.Keys, tables, view);
    } else if tables != [] {
      assert tables[..0] == [];
    }
  }

  lemma ShiftExists(wanted: set<nat>, known: set<nat>, later: set<nat>, tables: seq<string>, view: View)
    requires tables != [] && !Enough(wanted, known, tables, view, 0)
    requires forall k: nat :: k < |tables| ==> (Enough(wanted, known, tables, view, k + 1) <==> Enough(wanted, later, tables[1..], view, k))
    ensures (exists k: nat :: Enough(wanted, known, tables, view, k)) <==> (exists k: nat :: Enough(wanted, later, tables[1..], view, k))
  {
    if k: nat :| Enough(wanted, known, tables, view, k) {
      assert Enough(wanted, known, tables, view, (k - 1) + 1);
      assert Enough(wanted, later, tables[1..], view, k - 1);
    }
    if k: nat :| Enough(wanted, later, tables[1..], view, k) {
      assert Enough(wanted, known, tables, view, k + 1);
    }
  }
}
