/** The connection editor: the stored connections, the server instances attached to them, and the
    list view that shows the connections' names row by row. */
module ServerEditor {
  import opened Sequences
  import opened ConnectionNames

  class Connection {
    var name: string
    constructor (name: string)
      ensures this.name == name
    {
      this.name := name;
    }
  }

  class Instance {
    const connection: Connection
    var name: string
    constructor (connection: Connection, name: string)
      ensures this.connection == connection && this.name == name
    {
      this.connection := connection;
      this.name := name;
    }
  }

  /** The instances that are attached to other connections. */
  function Others(instances: seq<Instance>, conn: Connection): (rest: seq<Instance>)
    ensures |rest| <= |instances|
  {
    if instances == [] then []
    else if instances[0].connection == conn then Others(instances[1..], conn)
    else [instances[0]] + Others(instances[1..], conn)
  }

  lemma {:induction false} OthersConcat(a: seq<Instance>, b: seq<Instance>, conn: Connection)
    ensures Others(a + b, conn) == Others(a, conn) + Others(b, conn)
    decreases |a|
  {
    if a == [] {
      assert a + b == b;
    } else {
      assert (a + b)[1..] == a[1..] + b;
      OthersConcat(a[1..], b, conn);
    }
  }

  lemma {:induction false} OthersAmong(instances: seq<Instance>, conn: Connection)
    ensures forall x :: x in Others(instances, conn) ==> x in instances
  {
    if instances != [] {
      OthersAmong(instances[1..], conn);
    }
  }

  /** Exactly the instances of other connections remain, each as often as before. */
  lemma {:induction false} OthersAre(instances: seq<Instance>, conn: Connection, x: Instance)
    ensures multiset(Others(instances, conn))[x] == if x.connection == conn then 0 else multiset(instances)[x]
  {
    if instances != [] {
      OthersAre(instances[1..], conn, x);
      assert instances == [instances[0]] + instances[1..];
    }
  }

  /** The list after taking the item at oi out and putting it at ni, as list reordering does. */
  function Moved<T>(s: seq<T>, oi: nat, ni: nat): (r: seq<T>)
    requires oi < |s|
  {
    if oi == ni then s
    else
      var rest := s[..oi] + s[oi + 1..];
      if ni >= |rest| then rest + [s[oi]] else rest[..ni] + [s[oi]] + rest[ni..]
  }

  /** Moving by one place exchanges two neighbours. */
  lemma MovedByOne<T>(s: seq<T>, oi: nat, ni: nat)
    requires oi < |s| && ni < |s| && (ni == oi + 1 || oi == ni + 1)
    ensures Moved(s, oi, ni) == Swapped(s, oi, ni)
  {
  }

  function Names(connections: seq<Connection>): (names: seq<string>)
    reads connections
    ensures |names| == |connections|
    ensures forall i :: 0 <= i < |names| ==> names[i] == connections[i].name
  {
    seq(|connections|, i requires 0 <= i < |connections| reads connections => connections[i].name)
  }

  /** Every instance is attached to a connection of the list. */
  predicate Attached(instances: seq<Instance>, connections: seq<Connection>) {
    forall inst :: inst in instances ==> inst.connection in connections
  }

  /** Removing a connection with its instances leaves the others attached. */
  lemma {:induction false} StillAttached(instances: seq<Instance>, connections: seq<Connection>, row: nat)
    requires row < |connections| && Attached(instances, connections)
    ensures Attached(Others(instances, connections[row]), Without(connections, row))
  {
    if instances != [] {
      assert instances == [instances[0]] + instances[1..];
      StillAttached(instances[1..], connections, row);
      var conn := instances[0].connection;
      assert instances[0] in instances;
      if conn != connections[row] {
        var i :| 0 <= i < |connections| && connections[i] == conn;
        assert conn in connections[..row] || conn in connections[row + 1..];
      }
    }
  }

  function Without<T>(s: seq<T>, row: nat): (rest: seq<T>)
    requires row < |s|
    ensures |rest| == |s| - 1
  {
    s[..row] + s[row + 1..]
  }

  lemma AllBefore(was: seq<Instance>, conn: Connection)
    ensures was[..|was|] + Others(was[|was|..], conn) == was
  {
  }

  /** One step of the loop that removes instances from the end on. */
  lemma StepBack(was: seq<Instance>, i: nat, conn: Connection)
    requires i < |was|
    ensures var s := was[..i + 1] + Others(was[i + 1..], conn);
            i < |s| && s[i] == was[i]
            && (if s[i].connection == conn then Without(s, i) else s) == was[..i] + Others(was[i..], conn)
  {
    var tail := Others(was[i + 1..], conn);
    assert was[i..][1..] == was[i + 1..];
    hide Others;
    assert was[..i + 1] + tail == was[..i] + ([was[i]] + tail);
  }

  lemma DistinctWithout<T>(s: seq<T>, row: nat)
    requires row < |s| && Distinct(s)
    ensures Distinct(Without(s, row))
  {
  }

  lemma WithoutAmong<T>(s: seq<T>, row: nat)
    requires row < |s|
    ensures forall x :: x in Without(s, row) ==> x in s
  {
  }

  lemma SwappedAmong<T>(s: seq<T>, i: nat, j: nat)
    requires i < |s| && j < |s|
    ensures forall x :: x in Swapped(s, i, j) ==> x in s
  {
  }

  lemma NamesWithout(connections: seq<Connection>, row: nat)
    requires row < |connections|
    ensures Names(Without(connections, row)) == Without(Names(connections), row)
  {
  }

  function Swapped<T>(s: seq<T>, i: nat, j: nat): seq<T>
    requires i < |s| && j < |s|
  {
    s[i := s[j]][j := s[i]]
  }

  lemma SwapKeeps(connections: seq<Connection>, instances: seq<Instance>, i: nat, j: nat)
    requires i < |connections| && j < |connections| && i != j
    ensures var s := Swapped(connections, i, j);
            |s| == |connections|
            && (Distinct(connections) ==> Distinct(s)) && (Attached(instances, connections) ==> Attached(instances, s))
            && Names(s) == Swapped(Names(connections), i, j)
  {
    var s := Swapped(connections, i, j);
    forall c | c in connections ensures c in s {
      var k :| 0 <= k < |connections| && connections[k] == c;
      assert s[if k == i then j else if k == j then i else k] == c;
    }
  }

  /** The instance that counts as the connection's own: the first one attached to it. */
  predicate IsFirst(instances: seq<Instance>, conn: Connection, inst: Instance) {
    exists at :: 0 <= at < |instances| && instances[at] == inst && inst.connection == conn
                 && !HasInstance(instances[..at], conn)
  }

  lemma InPrefix(instances: seq<Instance>, conn: Connection, k: nat, n: nat)
    requires k < n <= |instances| && instances[k].connection == conn
    ensures HasInstance(instances[..n], conn) && HasInstance(instances, conn)
  {
    assert instances[..n][k] == instances[k];
    assert instances[k] in instances && instances[k] in instances[..n];
  }

  lemma OnlyFirst(instances: seq<Instance>, conn: Connection, found: bool, at: nat)
    requires found == HasInstance(instances, conn)
    requires found ==> at < |instances| && instances[at].connection == conn && !HasInstance(instances[..at], conn)
    ensures forall inst :: IsFirst(instances, conn, inst) <==> found && inst == instances[at]
  {
    hide HasInstance;
    forall inst | IsFirst(instances, conn, inst)
      ensures found && inst == instances[at]
    {
      var k :| 0 <= k < |instances| && instances[k] == inst && inst.connection == conn
               && !HasInstance(instances[..k], conn);
      InPrefix(instances, conn, k, |instances|);
      if k < at {
        InPrefix(instances, conn, k, at);
      } else if at < k {
        InPrefix(instances, conn, at, k);
      }
    }
  }

  predicate HasInstance(instances: seq<Instance>, conn: Connection) {
    exists inst :: inst in instances && inst.connection == conn
  }

  /** One instance of the copy is added when the original has one. */
  predicate InstanceAdded(was: seq<Instance>, instances: seq<Instance>, original: Connection, copy: Connection,
                          name: string)
    reads instances
  {
    if HasInstance(was, original) then
      |instances| == |was| + 1 && instances[..|was|] == was
      && instances[|was|].connection == copy && instances[|was|].name == name
    else instances == was
  }

  /** What the user does. Renaming carries the trimmed text, and the name that the connection panel
      makes of it. */
  datatype Action = Select(row: int) | New | Delete | Duplicate | MoveUp | MoveDown
                  | Rename(value: string, text: string)

  /** What the list view shows. */
  datatype View = View(rows: seq<string>, selected: int)

  predicate ViewRange(v: View) { -1 <= v.selected < |v.rows| }

  /** What each action makes of the view. */
  function Acted(v: View, action: Action): (w: View)
    requires ViewRange(v)
    ensures ViewRange(w)
  {
    match action
    case Select(row) => View(v.rows, if -1 <= row < |v.rows| then row else -1)
    case New => View(v.rows + [Candidate(FreeNumber(v.rows, 0))], |v.rows|)
    case Delete => if v.selected == -1 then v else View(Without(v.rows, v.selected), v.selected - 1)
    case Duplicate =>
      if v.selected == -1 then v
      else
        var prefix := v.rows[v.selected];
        View(v.rows + [Copy(prefix, FreeCopyNumber(v.rows, prefix, 1))], |v.rows|)
    case MoveUp => if v.selected > 0 then Exchanged(v, v.selected - 1) else v
    case MoveDown => if v.selected >= 0 && v.selected + 1 < |v.rows| then Exchanged(v, v.selected + 1) else v
    case Rename(_, text) => if v.selected == -1 then v else View(v.rows[v.selected := text], v.selected)
  }

  function Exchanged(v: View, to: nat): (w: View)
    requires ViewRange(v) && v.selected >= 0 && to < |v.rows|
    ensures ViewRange(w)
  {
    View(Swapped(v.rows, v.selected, to), to)
  }

  function ActedAll(v: View, actions: seq<Action>): (w: View)
    requires ViewRange(v)
    ensures ViewRange(w)
    decreases |actions|
  {
    if actions == [] then v else ActedAll(Acted(v, actions[0]), actions[1..])
  }

  lemma {:induction false} ActedMore(v: View, actions: seq<Action>, action: Action)
    requires ViewRange(v)
    ensures ActedAll(v, actions + [action]) == Acted(ActedAll(v, actions), action)
    decreases |actions|
  {
    hide Acted;
    if actions == [] {
      assert [] + [action] == [action] && [action][1..] == [];
    } else {
      assert (actions + [action])[1..] == actions[1..] + [action];
      ActedMore(Acted(v, actions[0]), actions[1..], action);
    }
  }

  /** Two different rows never show one name, in all runs from rows that differ, unless something is renamed. */
  lemma {:induction false} NamesStayDistinct(v: View, actions: seq<Action>)
    requires ViewRange(v) && Distinct(v.rows) && forall a <- actions :: !a.Rename?
    ensures Distinct(ActedAll(v, actions).rows)
    decreases |actions|
  {
    if actions != [] {
      assert actions[0] in actions;
      NamesDistinctStep(v, actions[0]);
      hide Acted, Distinct;
      NamesStayDistinct(Acted(v, actions[0]), actions[1..]);
    }
  }

  lemma NamesDistinctStep(v: View, action: Action)
    requires ViewRange(v) && Distinct(v.rows) && !action.Rename?
    ensures Distinct(Acted(v, action).rows)
  {
    hide Candidate, Copy, Distinct;
    if action.New? {
      DistinctMore(v.rows, Candidate(FreeNumber(v.rows, 0)));
    } else if v.selected >= 0 {
      if action.Duplicate? {
        var prefix := v.rows[v.selected];
        DistinctMore(v.rows, Copy(prefix, FreeCopyNumber(v.rows, prefix, 1)));
      } else if action.Delete? {
        DistinctWithout(v.rows, v.selected);
      } else if action.MoveUp? && v.selected > 0 {
        DistinctSwapped(v.rows, v.selected, v.selected - 1);
      } else if action.MoveDown? && v.selected + 1 < |v.rows| {
        DistinctSwapped(v.rows, v.selected, v.selected + 1);
      }
    }
  }

  lemma DistinctMore(rows: seq<string>, name: string)
    requires Distinct(rows) && name !in rows
    ensures Distinct(rows + [name])
  {
  }

  lemma DistinctSwapped(rows: seq<string>, i: nat, j: nat)
    requires Distinct(rows) && i < |rows| && j < |rows|
    ensures Distinct(Swapped(rows, i, j))
  {
  }

  /** Moving down undoes moving up, and the other way round, wherever the move is possible. */
  lemma MoveBack(v: View)
    requires ViewRange(v)
    ensures v.selected > 0 ==> ActedAll(v, [MoveUp, MoveDown]) == v
    ensures v.selected >= 0 && v.selected + 1 < |v.rows| ==> ActedAll(v, [MoveDown, MoveUp]) == v
  {
    Two(v, MoveUp, MoveDown);
    Two(v, MoveDown, MoveUp);
    hide ActedAll, Swapped;
    if v.selected > 0 {
      SwapTwice(v.rows, v.selected, v.selected - 1);
    }
    if v.selected >= 0 && v.selected + 1 < |v.rows| {
      SwapTwice(v.rows, v.selected, v.selected + 1);
    }
  }

  lemma SwapTwice<T>(s: seq<T>, i: nat, j: nat)
    requires i < |s| && j < |s|
    ensures |Swapped(s, i, j)| == |s| && Swapped(Swapped(s, i, j), j, i) == s
  {
  }

  lemma Two(v: View, a: Action, b: Action)
    requires ViewRange(v)
    ensures ActedAll(v, [a, b]) == Acted(Acted(v, a), b)
  {
    hide Acted;
    assert [a, b] == [a] + [b];
    ActedMore(v, [a], b);
    assert [a] == [] + [a];
    ActedMore(v, [], a);
  }

  /** Deleting undoes adding and copying, up to the selection. */
  lemma DeleteBack(v: View)
    requires ViewRange(v)
    ensures ActedAll(v, [New, Delete]) == View(v.rows, |v.rows| - 1)
    ensures v.selected >= 0 ==> ActedAll(v, [Duplicate, Delete]) == View(v.rows, |v.rows| - 1)
  {
    Two(v, New, Delete);
    Two(v, Duplicate, Delete);
    hide Candidate, Copy, FreeNumber, FreeCopyNumber, ActedAll, Without;
    LastGone(v.rows, Candidate(FreeNumber(v.rows, 0)));
    if v.selected >= 0 {
      var prefix := v.rows[v.selected];
      LastGone(v.rows, Copy(prefix, FreeCopyNumber(v.rows, prefix, 1)));
    }
  }

  lemma LastGone(rows: seq<string>, name: string)
    ensures Without(rows + [name], |rows|) == rows
  {
  }

  class Editor {
    var connections: seq<Connection>
    var instances: seq<Instance>
    var rows: seq<string>
    var selected: int

    /** The connections differ, the instances are attached to them, and the selection is a row. */
    predicate ListsOk()
      reads this
    {
      Distinct(connections) && Attached(instances, connections) && -1 <= selected < |rows|
    }

    /** Row i shows the name of connection i. */
    predicate ViewOk()
      reads this, connections
    {
      rows == Names(connections)
    }

    predicate Valid()
      reads this, connections
    {
      ListsOk() && ViewOk()
    }

    constructor (connections: seq<Connection>, instances: seq<Instance>)
      requires Distinct(connections) && Attached(instances, connections)
      ensures Valid() && this.connections == connections && this.instances == instances
    {
      this.connections := connections;
      this.instances := instances;
      rows := Names(connections);
      selected := -1;
    }

    method RefreshConnectionList()
      modifies this`rows, this`selected
      ensures rows == Names(connections) && selected == -1
    {
      rows := [];
      selected := -1;
      for i := 0 to |connections|
        invariant rows == Names(connections)[..i] && selected == -1
      {
        rows := rows + [connections[i].name];
      }
      assert Names(connections)[..|connections|] == Names(connections);
    }

    method SelectRow(row: int)
      modifies this`selected
      ensures selected == if -1 <= row < |rows| then row else -1
    {
      selected := if -1 <= row < |rows| then row else -1;
    }

    /** The selected connection's first instance. */
    method SelectedInstance() returns (found: bool, at: nat)
      requires Valid()
      ensures selected >= 0 ==> found == HasInstance(instances, connections[selected])
      ensures found ==> selected >= 0 && at < |instances| && instances[at].connection == connections[selected]
      ensures found ==> !HasInstance(instances[..at], connections[selected])
    {
      found, at := false, 0;
      if selected >= 0 {
        while at < |instances|
          invariant at <= |instances|
          invariant forall i :: 0 <= i < at ==> instances[i].connection != connections[selected]
        {
          if instances[at].connection == connections[selected] {
            found := true;
            return;
          }
          at := at + 1;
        }
      }
    }

    /** Adds a connection with its row, and selects it. */
    method Append(connection: Connection)
      requires Valid() && connection !in connections
      modifies this`connections, this`rows, this`selected
      ensures Valid() && connections == old(connections) + [connection]
      ensures rows == old(rows) + [connection.name] && selected == |old(connections)|
      ensures forall c :: c in connections ==> c in old(connections) || c == connection
    {
      rows := rows + [connection.name];
      selected := |rows| - 1;
      connections := connections + [connection];
    }

    method AddInstance() returns (ghost k: nat)
      requires Valid()
      modifies this`connections, this`rows, this`selected
      ensures Valid() && selected == |old(connections)|
      ensures FirstFree(old(rows), k) && rows == old(rows) + [Candidate(k)]
      ensures |connections| == |rows| && connections[..selected] == old(connections)
      ensures forall c :: c in connections ==> c in old(connections) || fresh(c)
    {
      hide FirstFree, Candidate;
      var name;
      name, k := NewName(Names(connections));
      var connection := new Connection(name);
      Append(connection);
    }

    method DuplicateInstance() returns (ghost n: nat)
      requires Valid()
      modifies this
      ensures Valid()
      ensures old(selected) == -1 ==>
        connections == old(connections) && instances == old(instances) && selected == -1
      ensures old(selected) >= 0 ==>
        FirstFreeCopy(old(rows), old(rows[selected]), n)
        && rows == old(rows) + [Copy(old(rows[selected]), n)] && selected == |old(connections)|
        && |connections| == |rows| && connections[..selected] == old(connections)
      ensures old(selected) >= 0 ==>
        InstanceAdded(old(instances), instances, old(connections[selected]), connections[selected], rows[selected])
      ensures forall c :: c in connections ==> c in old(connections) || fresh(c)
      ensures forall x :: x in instances ==> x in old(instances) || fresh(x)
    {
      hide FirstFreeCopy, Copy, HasInstance, InstanceAdded;
      n := 0;
      if selected == -1 {
        return;
      }
      var prefix := connections[selected].name;
      var name;
      name, n := NameSuggestion(Names(connections), prefix);
      var original := connections[selected];
      var found, _ := SelectedInstance();
      var copy := new Connection(name);
      Append(copy);
      CopyInstance(found, original, copy, name);
    }

    method CopyInstance(found: bool, original: Connection, copy: Connection, name: string)
      requires found == HasInstance(instances, original) && Valid() && copy in connections
      modifies this`instances
      ensures Valid() && InstanceAdded(old(instances), instances, original, copy, name)
      ensures forall x :: x in instances ==> x in old(instances) || fresh(x)
    {
      if found {
        var inst := new Instance(copy, name);
        instances := instances + [inst];
      }
    }

    method RemoveInstancesOf(conn: Connection)
      modifies this`instances
      ensures instances == Others(old(instances), conn)
    {
      hide *;
      var i := |instances|;
      ghost var was := instances;
      AllBefore(was, conn);
      while i > 0
        invariant 0 <= i <= |was| && was == old(instances)
        invariant instances == was[..i] + Others(was[i..], conn)
      {
        i := i - 1;
        StepBack(was, i, conn);
        if instances[i].connection == conn {
          instances := Without(instances, i);
        }
      }
      assert was[0..] == was && was[..0] == [];
    }

    /** Deletes the selected connection with exactly its instances; where the view has fallen out of
        step with the list, shows the list again. */
    method DeleteInstance()
      requires ListsOk()
      modifies this
      ensures ListsOk() && (old(ViewOk()) ==> ViewOk())
      ensures forall x :: x in instances ==> x in old(instances)
      ensures forall c :: c in connections ==> c in old(connections)
      ensures old(selected) == -1 ==> unchanged(this)
      ensures 0 <= old(selected) < |old(connections)| ==>
        instances == Others(old(instances), old(connections[selected]))
        && connections == Without(old(connections), old(selected))
        && rows == Without(old(rows), old(selected)) && selected == old(selected) - 1
      ensures old(selected) >= |old(connections)| ==>
        ViewOk() && connections == old(connections) && instances == old(instances) && selected == -1
    {
      hide Others, Attached, Distinct, Without, Names;
      var row := selected;
      if row == -1 {
        return;
      }
      if row < |connections| {
        RemoveRow(row);
      } else {
        RefreshConnectionList();
      }
    }

    method RemoveRow(row: nat)
      requires ListsOk() && row < |connections| && row < |rows|
      modifies this
      ensures ListsOk() && (old(ViewOk()) ==> ViewOk()) && selected == row - 1
      ensures forall x :: x in instances ==> x in old(instances)
      ensures forall c :: c in connections ==> c in old(connections)
      ensures instances == Others(old(instances), old(connections)[row])
      ensures connections == Without(old(connections), row) && rows == Without(old(rows), row)
    {
      hide Others, Attached, Distinct, Without, Names;
      ghost var was, names := connections, Names(connections);
      StillAttached(instances, connections, row);
      DistinctWithout(connections, row);
      OthersAmong(instances, connections[row]);
      WithoutAmong(connections, row);
      RemoveInstancesOf(connections[row]);
      connections := Without(connections, row);
      rows := Without(rows, row);
      SelectRow(row - 1);
      assert Names(was) == names;
      NamesWithout(was, row);
    }

    /** Moves the selected connection up or down one place, and rewrites the rows. */
    method ReorderInstance(up: bool)
      requires Valid()
      modifies this`connections, this`rows, this`selected
      ensures Valid()
      ensures var row, to := old(selected), old(selected) + if up then -1 else 1;
              if row >= 0 && 0 <= to < |old(connections)| then
                selected == to && connections == Swapped(old(connections), row, to)
                && rows == Swapped(old(rows), row, to)
              else unchanged(this)
      ensures forall c :: c in connections ==> c in old(connections)
    {
      hide Attached, Distinct, Moved, Swapped;
      var row := selected;
      if row < 0 {
        return;
      }
      var to := row + if up then -1 else 1;
      if 0 <= to < |rows| {
        MovedByOne(connections, row, to);
        SwapKeeps(connections, instances, row, to);
        SwappedAmong(connections, row, to);
        connections := Moved(connections, row, to);
        SelectRow(to);
      }
      RewriteRows();
    }

    method RewriteRows()
      requires |rows| == |connections|
      modifies this`rows
      ensures rows == Names(connections)
    {
      for k := 0 to |connections|
        invariant |rows| == |connections|
        invariant forall i :: 0 <= i < k ==> rows[i] == connections[i].name
      {
        rows := rows[k := connections[k].name];
      }
    }

    /** Renames the selected connection and its row, and its first instance. */
    method Rename(value: string, text: string)
      requires Valid()
      modifies this`rows, connections, instances
      ensures Valid()
      ensures old(selected) == -1 ==> rows == old(rows)
      ensures old(selected) >= 0 ==> rows == old(rows)[selected := text]
      ensures forall inst :: inst in instances ==>
        inst.name == if selected >= 0 && IsFirst(instances, connections[selected], inst) then value else old(inst.name)
    {
      hide Attached, Distinct, HasInstance, IsFirst;
      var found, at := SelectedInstance();
      if selected >= 0 {
        OnlyFirst(instances, connections[selected], found, at);
        RenameRow(text);
      }
      if found {
        instances[at].name := value;
      }
    }

    /** Renames the selected connection and its row. */
    method RenameRow(text: string)
      requires Valid() && selected >= 0
      modifies this`rows, connections
      ensures Valid() && rows == old(rows)[selected := text]
    {
      hide Attached;
      connections[selected].name := text;
      rows := rows[selected := text];
    }

    function Shown(): View
      reads this
    {
      View(rows, selected)
    }

    /** One action: what it makes of the view, of the connections, of the instances and of their names. */
    method Apply(action: Action)
      requires Valid()
      modifies this, connections, instances
      ensures Valid() && Shown() == Acted(old(Shown()), action)
      ensures forall k :: 0 <= k < |connections| ==> connections[k] in old(connections) || fresh(connections[k])
      ensures forall k :: 0 <= k < |instances| ==> instances[k] in old(instances) || fresh(instances[k])
      ensures action.Select? || action.Rename? ==> connections == old(connections)
      ensures !action.Delete? && !action.Duplicate? ==> instances == old(instances)
      ensures action.New? || action.Duplicate? ==>
                |connections| == |rows| && connections[..|old(connections)|] == old(connections)
      ensures action.Duplicate? && old(selected) >= 0 ==>
                InstanceAdded(old(instances), instances, old(connections[selected]), connections[selected],
                              rows[selected])
      ensures action.Delete? && old(selected) >= 0 ==>
                connections == Without(old(connections), old(selected))
                && instances == Others(old(instances), old(connections[selected]))
      ensures action.MoveUp? && old(selected) > 0 ==>
                connections == Swapped(old(connections), old(selected), old(selected) - 1)
      ensures action.MoveDown? && 0 <= old(selected) < |old(connections)| - 1 ==>
                connections == Swapped(old(connections), old(selected), old(selected) + 1)
      ensures forall x :: x in old(instances) ==>
                x.name == if action.Rename? && selected >= 0 && IsFirst(instances, connections[selected], x)
                          then action.value else old(x.name)
    {
      hide Attached, Distinct, FirstFree, FirstFreeCopy, Candidate, Copy, Names, Without, Swapped, Others,
          InstanceAdded, IsFirst;
      ghost var shown := rows;
      match action
      case Select(row) => SelectRow(row);
      case New =>
        ghost var k := AddInstance();
        FirstFreeIs(shown, k);
      case Delete => DeleteInstance();
      case Duplicate =>
        ghost var selected := selected;
        ghost var n := DuplicateInstance();
        if selected >= 0 {
          FirstFreeCopyIs(shown, shown[selected], n);
        }
      case MoveUp => ReorderInstance(true);
      case MoveDown => ReorderInstance(false);
      case Rename(value, text) => Rename(value, text);
    }

    /** Whatever the user does, row i shows the name of connection i, and every instance is attached
        to a connection of the list; the view is what the actions make of it, one after the other. */
    method Run(actions: seq<Action>)
      requires Valid()
      modifies this, connections, instances
      ensures Valid() && ViewRange(old(Shown())) && Shown() == ActedAll(old(Shown()), actions)
    {
      hide *;
      RunStart();
      for i := 0 to |actions|
        invariant Valid() && Shown() == ActedAll(old(Shown()), actions[..i])
        invariant forall k :: 0 <= k < |connections| ==> connections[k] in old(connections) || fresh(connections[k])
        invariant forall k :: 0 <= k < |instances| ==> instances[k] in old(instances) || fresh(instances[k])
      {
        ActedMore(old(Shown()), actions[..i], actions[i]);
        assert actions[..i + 1] == actions[..i] + [actions[i]];
        Apply(actions[i]);
      }
      assert actions[..|actions|] == actions;
    }

    lemma RunStart()
      requires Valid()
      ensures ViewRange(Shown()) && Shown() == ActedAll(Shown(), [])
    {
    }
  }

  /** Deleting a connection that was just added, with the instance copied for it, undoes the
      addition. */
  lemma DeleteUndoesAppend(connections: seq<Connection>, instances: seq<Instance>, copy: Connection, inst: Instance)
    requires Attached(instances, connections) && copy !in connections && inst.connection == copy
    ensures Without(connections + [copy], |connections|) == connections
    ensures Others(instances, copy) == instances && Others(instances + [inst], copy) == instances
  {
    OthersConcat(instances, [inst], copy);
    NoneAttached(instances, connections, copy);
  }

  lemma {:induction false} NoneAttached(instances: seq<Instance>, connections: seq<Connection>, copy: Connection)
    requires Attached(instances, connections) && copy !in connections
    ensures Others(instances, copy) == instances
  {
    if instances != [] {
      assert instances[0] in instances;
      NoneAttached(instances[1..], connections, copy);
    }
  }
}
