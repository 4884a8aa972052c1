/** Rebuilding the device tree from lsblk's rows, where children are stored by value, and
    picking the multipath device out of it. */
module DeviceForest {

  /** A device as the driver keeps it: the children are copies, not references. */
  datatype Device = Device(name: string, hctl: string, children: seq<Device>, kind: string, transport: string,
                           size: string)

  /** The columns of one row: NAME, KNAME, PKNAME, HCTL, TYPE, TRAN, SIZE. */
  type Row = seq<string>

  datatype Listing = Devices(roots: seq<Device>) | InvalidOutput | ParentNotFound(parent: string) | IndexPanic

  class DeviceRef {
    var value: Device

    constructor (d: Device)
      ensures value == d
    {
      value := d;
    }
  }

  ghost predicate Complete(rows: seq<Row>) {
    forall i :: 0 <= i < |rows| ==> |rows[i]| >= 7
  }

  function Fresh(row: Row): Device
    requires |row| >= 7
  {
    Device(row[0], row[3], [], row[4], row[5], row[6])
  }

  /** The row the map of kernel names leads to: the last one with that name, or -1. */
  function Owner(rows: seq<Row>, kname: string): (i: int)
    requires forall k :: 0 <= k < |rows| ==> |rows[k]| >= 7
    ensures -1 <= i < |rows|
    ensures i >= 0 ==> rows[i][1] == kname && forall k :: i < k < |rows| ==> rows[k][1] != kname
    ensures i == -1 ==> forall k :: 0 <= k < |rows| ==> rows[k][1] != kname
  {
    if rows == [] then -1
    else if rows[|rows| - 1][1] == kname then |rows| - 1
    else Owner(rows[..|rows| - 1], kname)
  }

  /** The children copied into row `i` while the rows before `t` were attached: each child is the
      value its own row had at the moment it was copied. */
  ghost function Children(rows: seq<Row>, i: nat, t: nat): seq<Device>
    requires Complete(rows) && i < |rows| && t <= |rows|
    decreases t, 0
  {
    if t == 0 then []
    else
      Children(rows, i, t - 1) +
      if rows[t - 1][2] != "" && Owner(rows, rows[t - 1][2]) == i then [Value(rows, t - 1, t - 1)] else []
  }

  ghost function Value(rows: seq<Row>, i: nat, t: nat): Device
    requires Complete(rows) && i < |rows| && t <= |rows|
    decreases t, 1
  {
    Fresh(rows[i]).(children := Children(rows, i, t))
  }

  /** The parentless rows among the first `n`, in order, with the children they end up with. */
  ghost function Roots(rows: seq<Row>, n: nat): seq<Device>
    requires Complete(rows) && n <= |rows|
  {
    if n == 0 then []
    else Roots(rows, n - 1) + if rows[n - 1][2] == "" then [Value(rows, n - 1, |rows|)] else []
  }

  /** The first row that names an unknown parent, or |rows|. */
  ghost function FirstOrphan(rows: seq<Row>, i: nat): (k: nat)
    requires Complete(rows) && i <= |rows|
    ensures i <= k <= |rows|
    ensures k < |rows| ==> rows[k][2] != "" && Owner(rows, rows[k][2]) == -1
    ensures forall j :: i <= j < k ==> rows[j][2] == "" || Owner(rows, rows[j][2]) >= 0
    decreases |rows| - i
  {
    if i == |rows| || (rows[i][2] != "" && Owner(rows, rows[i][2]) == -1) then i else FirstOrphan(rows, i + 1)
  }

  /** What the call returns: a row of fewer than five columns is reported, one of five or six
      is read past its end; then the parents are looked up in row order. */
  ghost function Expected(rows: seq<Row>): Listing {
    if exists i :: 0 <= i < |rows| && |rows[i]| < 7 then
      (if |rows[FirstShort(rows)]| < 5 then InvalidOutput else IndexPanic)
    else if FirstOrphan(rows, 0) < |rows| then ParentNotFound(rows[FirstOrphan(rows, 0)][2])
    else Devices(Roots(rows, |rows|))
  }

  function FirstShort(rows: seq<Row>): (i: nat)
    requires exists i :: 0 <= i < |rows| && |rows[i]| < 7
    ensures i < |rows| && |rows[i]| < 7 && forall k :: 0 <= k < i ==> |rows[k]| >= 7
  {
    if |rows[0]| < 7 then 0
    else
      assert exists i :: 0 <= i < |rows[1..]| && |rows[1..][i]| < 7 by {
        var i :| 0 <= i < |rows| && |rows[i]| < 7;
        assert rows[1..][i - 1] == rows[i];
      }
      var k := FirstShort(rows[1..]);
      assert forall j :: 0 < j <= k ==> rows[j] == rows[1..][j - 1];
      k + 1
  }

  /** The first row that lacks columns decides: with fewer than five it is reported, with five or six the
      parser reads past its end. */
  lemma ShortRows(rows: seq<Row>)
    ensures Expected(rows).InvalidOutput? <==>
            exists i :: 0 <= i < |rows| && |rows[i]| < 5 && forall k :: 0 <= k < i ==> |rows[k]| >= 7
    ensures Expected(rows).IndexPanic? <==>
            exists i :: 0 <= i < |rows| && 5 <= |rows[i]| < 7 && forall k :: 0 <= k < i ==> |rows[k]| >= 7
  {
    hide FirstShort, FirstOrphan, Roots;
    forall i | 0 <= i < |rows| && |rows[i]| < 7 && forall k :: 0 <= k < i ==> |rows[k]| >= 7
      ensures FirstShort(rows) == i
    {
      FirstShortUnique(rows, i);
    }
  }

  lemma FirstShortUnique(rows: seq<Row>, i: nat)
    requires i < |rows| && |rows[i]| < 7 && forall k :: 0 <= k < i ==> |rows[k]| >= 7
    ensures FirstShort(rows) == i
  {
  }

  method Lsblk(rows: seq<Row>) returns (r: Listing)
    ensures r == Expected(rows)
  {
    hide Parsed, Owner, Roots, FirstOrphan;
    ParsedNothing();
    var devices: seq<DeviceRef> := [];
    var devicesMap: map<string, DeviceRef> := map[];
    var pkNames: seq<string> := [];
    for i := 0 to |rows|
      invariant forall k :: 0 <= k < i ==> |rows[k]| >= 7
      invariant |devices| == i && Parsed(rows[..i], devices, pkNames, devicesMap)
      invariant forall k :: 0 <= k < i ==> fresh(devices[k])
      invariant forall k :: 0 <= k < i ==> devices[k].value == Fresh(rows[k])
    {
      var columns := rows[i];
      if |columns| < 7 {
        FirstShortUnique(rows, i);
        return if |columns| < 5 then InvalidOutput else IndexPanic;
      }
      var device := new DeviceRef(Device(columns[0], columns[3], [], columns[4], columns[5], columns[6]));
      ParsedStep(rows, i, devices, pkNames, devicesMap, device);
      devices := devices + [device];
      pkNames := pkNames + [columns[2]];
      devicesMap := devicesMap[columns[1] := device];
    }
    assert rows[..|rows|] == rows;
    r := Attach(rows, devices, pkNames, devicesMap);
  }

  /** What the parsing loop has collected from `rows`. */
  ghost predicate Parsed(rows: seq<Row>, devices: seq<DeviceRef>, pkNames: seq<string>, devicesMap: map<string,
                         DeviceRef>) {
    && Complete(rows)
    && |devices| == |pkNames| == |rows|
    && (forall i, j :: 0 <= i < j < |rows| ==> devices[i] != devices[j])
    && (forall i :: 0 <= i < |rows| ==> pkNames[i] == rows[i][2])
    && (forall k :: k in devicesMap <==> Owner(rows, k) >= 0)
    && (forall k :: k in devicesMap ==> devicesMap[k] == devices[Owner(rows, k)])
  }

  lemma ParsedNothing()
    ensures Parsed([], [], [], map[])
  {
  }

  lemma ParsedStep(rows: seq<Row>, i: nat, devices: seq<DeviceRef>, pkNames: seq<string>,
                   devicesMap: map<string, DeviceRef>, device: DeviceRef)
    requires i < |rows| && |rows[i]| >= 7 && Parsed(rows[..i], devices, pkNames, devicesMap) && device !in devices
    ensures Parsed(rows[..i + 1], devices + [device], pkNames + [rows[i][2]], devicesMap[rows[i][1] := device])
  {
    assert rows[..i + 1][..i] == rows[..i];
    assert forall k :: Owner(rows[..i + 1], k) == if rows[i][1] == k then i else Owner(rows[..i], k);
  }

  lemma ValueAtStart(rows: seq<Row>, k: nat)
    requires Complete(rows) && k < |rows|
    ensures Value(rows, k, 0) == Fresh(rows[k])
  {
  }

  /** One step of the second loop: row `i` is copied into its parent, all else stays. */
  lemma ValueStep(rows: seq<Row>, i: nat, k: nat)
    requires Complete(rows) && i < |rows| && k < |rows|
    ensures Value(rows, k, i + 1) ==
            if rows[i][2] != "" && Owner(rows, rows[i][2]) == k
            then Value(rows, k, i).(children := Value(rows, k, i).children + [Value(rows, i, i)])
            else Value(rows, k, i)
  {
  }

  /** Every device holds the value its row has after the rows before `t` were attached. */
  ghost predicate Holds(rows: seq<Row>, devices: seq<DeviceRef>, t: nat)
    requires Complete(rows) && t <= |rows| && |devices| == |rows|
    reads devices
  {
    forall k :: 0 <= k < |rows| ==> devices[k].value == Value(rows, k, t)
  }

  /** The step of the second loop: a copy of the device goes into its parent. */
  method AppendChild(rows: seq<Row>, devices: seq<DeviceRef>, i: nat, parent: DeviceRef)
    requires Complete(rows) && i < |rows| == |devices|
    requires forall j, k :: 0 <= j < k < |rows| ==> devices[j] != devices[k]
    requires Holds(rows, devices, i)
    requires rows[i][2] != "" && Owner(rows, rows[i][2]) >= 0 && parent == devices[Owner(rows, rows[i][2])]
    modifies parent
    ensures Holds(rows, devices, i + 1)
  {
    hide Value, Owner;
    ghost var o := Owner(rows, rows[i][2]);
    parent.value := parent.value.(children := parent.value.children + [devices[i].value]);
    forall k | 0 <= k < |rows|
      ensures devices[k].value == Value(rows, k, i + 1)
    {
      ValueStep(rows, i, k);
      assert k != o ==> devices[k] != parent;
    }
  }

  /** The second half of the call: copy every device into its parent, then collect the roots. */
  method Attach(rows: seq<Row>, devices: seq<DeviceRef>, pkNames: seq<string>, devicesMap: map<string, DeviceRef>)
      returns (r: Listing)
    requires Parsed(rows, devices, pkNames, devicesMap)
    requires forall k :: 0 <= k < |rows| ==> devices[k].value == Fresh(rows[k])
    modifies devices
    ensures r == Expected(rows)
  {
    hide Value, Owner;
    forall k | 0 <= k < |rows|
      ensures devices[k].value == Value(rows, k, 0)
    {
      ValueAtStart(rows, k);
    }
    for i := 0 to |rows|
      invariant FirstOrphan(rows, 0) == FirstOrphan(rows, i)
      invariant Holds(rows, devices, i)
    {
      var pkName := pkNames[i];
      if pkName == "" {
        SkipRow(rows, devices, i);
        continue;
      }
      if pkName !in devicesMap {
        return ParentNotFound(pkName);
      }
      AppendChild(rows, devices, i, devicesMap[pkName]);
    }
    var deviceInfo: seq<Device> := [];
    for i := 0 to |rows|
      invariant deviceInfo == Roots(rows, i)
    {
      if pkNames[i] == "" {
        deviceInfo := deviceInfo + [devices[i].value];
      }
    }
    r := Devices(deviceInfo);
  }

  lemma SkipRow(rows: seq<Row>, devices: seq<DeviceRef>, i: nat)
    requires Complete(rows) && i < |rows| == |devices| && rows[i][2] == "" && Holds(rows, devices, i)
    ensures Holds(rows, devices, i + 1)
  {
    forall k | 0 <= k < |rows|
      ensures devices[k].value == Value(rows, k, i + 1)
    {
      ValueStep(rows, i, k);
    }
  }

  // ---------- What the forest looks like ----------

  /** The kernel name of every parentless row belongs to that row alone. */
  ghost predicate RootNamesUnique(rows: seq<Row>)
    requires Complete(rows)
  {
    forall i, j :: 0 <= i < |rows| && 0 <= j < |rows| && rows[i][2] == "" && rows[i][1] == rows[j][1] ==> i == j
  }

  /** The rows before `t` that name `kname` as their parent, in order; an empty
      parent name is no parent. */
  function ChildRows(rows: seq<Row>, kname: string, t: nat): (idx: seq<nat>)
    requires forall k :: 0 <= k < |rows| ==> |rows[k]| >= 7
    requires t <= |rows|
    ensures forall m :: 0 <= m < |idx| ==> idx[m] < t && rows[idx[m]][2] == kname != ""
    ensures kname != "" ==> forall j :: 0 <= j < t && rows[j][2] == kname ==> j in idx
    ensures forall m, n :: 0 <= m < n < |idx| ==> idx[m] < idx[n]
  {
    if t == 0 then []
    else ChildRows(rows, kname, t - 1) + if rows[t - 1][2] == kname != "" then [t - 1] else []
  }

  /** The parentless rows before `n`, in order. */
  function RootRows(rows: seq<Row>, n: nat): (idx: seq<nat>)
    requires forall k :: 0 <= k < |rows| ==> |rows[k]| >= 7
    requires n <= |rows|
    ensures forall m :: 0 <= m < |idx| ==> idx[m] < n && rows[idx[m]][2] == ""
    ensures forall j :: 0 <= j < n && rows[j][2] == "" ==> j in idx
    ensures forall m, k :: 0 <= m < k < |idx| ==> idx[m] < idx[k]
  {
    if n == 0 then [] else RootRows(rows, n - 1) + if rows[n - 1][2] == "" then [n - 1] else []
  }

  predicate SameRow(d: Device, row: Row)
    requires |row| >= 7
  {
    d.(children := []) == Fresh(row)
  }

  /** The devices are the copies of these rows, each made when its row was attached. */
  ghost predicate AreCopies(rows: seq<Row>, children: seq<Device>, idx: seq<nat>)
    requires Complete(rows) && forall m :: 0 <= m < |idx| ==> idx[m] < |rows|
  {
    |children| == |idx| && forall m :: 0 <= m < |idx| ==> children[m] == Value(rows, idx[m], idx[m])
  }

  lemma NoCopies(rows: seq<Row>)
    requires Complete(rows)
    ensures AreCopies(rows, [], [])
  {
  }

  lemma MoreCopies(rows: seq<Row>, children: seq<Device>, idx: seq<nat>, j: nat)
    requires Complete(rows) && (forall m :: 0 <= m < |idx| ==> idx[m] < |rows|) && j < |rows|
    requires AreCopies(rows, children, idx)
    ensures AreCopies(rows, children + [Value(rows, j, j)], idx + [j])
  {
    hide Value;
  }

  /** The last row of a name gets the children that name it as parent, whichever row of that name they follow. */
  lemma {:induction false} ChildrenOfOwner(rows: seq<Row>, i: nat, t: nat)
    requires Complete(rows) && i < |rows| && t <= |rows| && Owner(rows, rows[i][1]) == i
    ensures AreCopies(rows, Children(rows, i, t), ChildRows(rows, rows[i][1], t))
  {
    hide Owner, Value, AreCopies, Children, ChildRows;
    ChildrenStep(rows, i, t);
    ChildRowsNext(rows, rows[i][1], t);
    if t == 0 {
      NoCopies(rows);
    } else {
      ChildrenOfOwner(rows, i, t - 1);
      MoreCopies(rows, Children(rows, i, t - 1), ChildRows(rows, rows[i][1], t - 1), t - 1);
      if rows[t - 1][2] == "" || rows[t - 1][2] != rows[i][1] {
        assert Children(rows, i, t) == Children(rows, i, t - 1);
        assert ChildRows(rows, rows[i][1], t) == ChildRows(rows, rows[i][1], t - 1);
      }
    }
  }

  lemma ChildRowsNext(rows: seq<Row>, kname: string, t: nat)
    requires Complete(rows) && t <= |rows|
    ensures ChildRows(rows, kname, t) ==
            if t == 0 then []
            else ChildRows(rows, kname, t - 1) + if rows[t - 1][2] == kname != "" then [t - 1] else []
  {
  }

  /** An earlier row of the same name gets none. */
  lemma {:induction false} ChildrenOfOther(rows: seq<Row>, i: nat, t: nat)
    requires Complete(rows) && i < |rows| && t <= |rows| && Owner(rows, rows[i][1]) != i
    ensures Children(rows, i, t) == []
  {
    hide Owner;
    if t > 0 {
      ChildrenOfOther(rows, i, t - 1);
    }
  }

  lemma {:induction false} RootsAreRootRows(rows: seq<Row>, n: nat)
    requires Complete(rows) && n <= |rows|
    ensures var idx := RootRows(rows, n);
            |Roots(rows, n)| == |idx| && forall m :: 0 <= m < |idx| ==> Roots(rows, n)[m] == Value(rows, idx[m], |rows|)
  {
    if n > 0 {
      RootsAreRootRows(rows, n - 1);
    }
  }

  /** For complete rows whose root names are unique: the call fails exactly when some row
      names an unknown parent; otherwise it returns the parentless rows in order, each with exactly the
      rows naming it as parent as its children, in order. */
  lemma ForestIsExact(rows: seq<Row>)
    requires Complete(rows) && RootNamesUnique(rows)
    ensures Expected(rows).ParentNotFound? <==>
            exists j :: 0 <= j < |rows| && rows[j][2] != "" && forall i :: 0 <= i < |rows| ==> rows[i][1] != rows[j][2]
    ensures !Expected(rows).ParentNotFound? ==> Expected(rows).Devices?
    ensures Expected(rows).Devices? ==>
              var roots, idx := Expected(rows).roots, RootRows(rows, |rows|);
              && |roots| == |idx|
              && forall m :: 0 <= m < |idx| ==>
                   && SameRow(roots[m], rows[idx[m]])
                   && ChildrenMatch(rows, roots[m].children, ChildRows(rows, rows[idx[m]][1], |rows|))
  {
    hide Value, Owner, RootRows, ChildRows, Roots, SameRow;
    RootsAreRootRows(rows, |rows|);
    var idx := RootRows(rows, |rows|);
    forall m | 0 <= m < |idx|
      ensures SameRow(Value(rows, idx[m], |rows|), rows[idx[m]])
      ensures ChildrenMatch(rows, Value(rows, idx[m], |rows|).children, ChildRows(rows, rows[idx[m]][1], |rows|))
    {
      RootMatches(rows, idx[m]);
    }
  }

  /** The parent reported as unknown is that of the first row whose parent is. */
  lemma UnknownParent(rows: seq<Row>)
    requires Complete(rows) && Expected(rows).ParentNotFound?
    ensures exists j :: 0 <= j < |rows| && Expected(rows).parent == rows[j][2] != "" &&
                        (forall i :: 0 <= i < |rows| ==> rows[i][1] != rows[j][2]) &&
                        (forall k :: 0 <= k < j && rows[k][2] != "" ==>
                           exists i :: 0 <= i < |rows| && rows[i][1] == rows[k][2])
  {
    hide Owner, Roots;
    var j := FirstOrphan(rows, 0);
    forall k | 0 <= k < j && rows[k][2] != ""
      ensures exists i :: 0 <= i < |rows| && rows[i][1] == rows[k][2]
    {
      assert rows[Owner(rows, rows[k][2])][1] == rows[k][2];
    }
  }

  lemma RootMatches(rows: seq<Row>, i: nat)
    requires Complete(rows) && RootNamesUnique(rows) && i < |rows| && rows[i][2] == ""
    ensures SameRow(Value(rows, i, |rows|), rows[i])
    ensures ChildrenMatch(rows, Value(rows, i, |rows|).children, ChildRows(rows, rows[i][1], |rows|))
  {
    hide Owner;
    ChildrenOfOwner(rows, i, |rows|);
  }

  ghost predicate ChildrenMatch(rows: seq<Row>, children: seq<Device>, idx: seq<nat>)
    requires Complete(rows) && forall m :: 0 <= m < |idx| ==> idx[m] < |rows|
  {
    |children| == |idx| && forall m :: 0 <= m < |idx| ==> SameRow(children[m], rows[idx[m]])
  }

  lemma {:induction false} LaterChildRows(rows: seq<Row>, kname: string, i: nat, t: nat)
    requires Complete(rows) && i <= t <= |rows| && kname != ""
    ensures |ChildRows(rows, kname, i)| <= |ChildRows(rows, kname, t)|
    ensures |ChildRows(rows, kname, i)| == |ChildRows(rows, kname, t)| <==>
            forall j :: i <= j < t ==> rows[j][2] != kname
    decreases t
  {
    hide ChildRows;
    if i < t {
      LaterChildRows(rows, kname, i, t - 1);
      ChildRowsStep(rows, kname, t);
    }
  }

  lemma ChildRowsStep(rows: seq<Row>, kname: string, t: nat)
    requires Complete(rows) && 0 < t <= |rows| && kname != ""
    ensures |ChildRows(rows, kname, t)| == |ChildRows(rows, kname, t - 1)| + if rows[t - 1][2] == kname then 1 else 0
  {
  }

  /** What the copy of a row made for its parent holds, also where a kernel name is listed more than once, as that
      of a multipath device is under each of its disks. All children of a name go to its last row. The copy of that
      row holds those that come before it, each as it was when it was copied in turn, and so all of them exactly
      when none comes later; the copy of any earlier row of the name holds none. */
  lemma CopyIsWholeExactly(rows: seq<Row>, i: nat)
    requires Complete(rows) && i < |rows| && rows[i][1] != ""
    ensures Owner(rows, rows[i][1]) == i ==>
              && AreCopies(rows, Value(rows, i, i).children, ChildRows(rows, rows[i][1], i))
              && (|Value(rows, i, i).children| == |ChildRows(rows, rows[i][1], |rows|)| <==>
                  forall j :: i <= j < |rows| ==> rows[j][2] != rows[i][1])
    ensures Owner(rows, rows[i][1]) != i ==> Value(rows, i, i).children == []
  {
    hide ChildRows, Owner;
    if Owner(rows, rows[i][1]) == i {
      ChildrenOfOwner(rows, i, i);
      LaterChildRows(rows, rows[i][1], i, |rows|);
    } else {
      ChildrenOfOther(rows, i, i);
    }
  }

  /** A disk, the multipath device on it and a partition of that, in lsblk's order. */
  function ThreeDeep(): (rows: seq<Row>)
    ensures Complete(rows)
  {
    [["sda", "sda", "", "1:0:0:1", "disk", "iscsi", "1G"],
     ["mpatha", "dm-0", "sda", "", "mpath", "", "1G"],
     ["mpatha1", "dm-1", "dm-0", "", "part", "", "1G"]]
  }

  /** The same with a second path to the device. */
  function TwoPaths(): (rows: seq<Row>)
    ensures Complete(rows)
  {
    ThreeDeep() +
    [["sdb", "sdb", "", "2:0:0:1", "disk", "iscsi", "1G"],
     ["mpatha", "dm-0", "sdb", "", "mpath", "", "1G"],
     ["mpatha1", "dm-1", "dm-0", "", "part", "", "1G"]]
  }

  function Disk(name: string, hctl: string, children: seq<Device>): Device {
    Device(name, hctl, children, "disk", "iscsi", "1G")
  }

  function MultipathDevice(children: seq<Device>): Device {
    Device("mpatha", "", children, "mpath", "", "1G")
  }

  const PARTITION := Device("mpatha1", "", [], "part", "", "1G")

  /** With one path the partition is in none of the devices returned. */
  lemma GrandchildIsLost()
    ensures Expected(ThreeDeep()) == Devices([Disk("sda", "1:0:0:1", [MultipathDevice([])])])
  {
    hide Owner, Children;
    var rows := ThreeDeep();
    assert "sda" != "dm-0" && "sda" != "dm-1" && "dm-0" != "dm-1";
    assert rows[0][1] == "sda" && rows[1][1] == "dm-0" && rows[2][1] == "dm-1";
    assert Owner(rows, "sda") == 0 && Owner(rows, "dm-0") == 1;
    assert FirstOrphan(rows, 0) == 3;
    assert Children(rows, 1, 1) == [] by {
      ChildrenStep(rows, 1, 1);
      ChildrenStep(rows, 1, 0);
    }
    assert Children(rows, 0, 3) == [Value(rows, 1, 1)] by {
      ChildrenStep(rows, 0, 3);
      ChildrenStep(rows, 0, 2);
      ChildrenStep(rows, 0, 1);
      ChildrenStep(rows, 0, 0);
    }
    assert Roots(rows, 1) == [Value(rows, 0, 3)];
    assert Roots(rows, 3) == [Value(rows, 0, 3)];
  }

  lemma TwoPathsOwners()
    ensures var rows := TwoPaths();
            && |rows| == 6
            && Owner(rows, "sda") == 0 && Owner(rows, "sdb") == 3
            && Owner(rows, "dm-0") == 4 && Owner(rows, "dm-1") == 5
            && rows[0][2] == "" && rows[1][2] == "sda" && rows[2][2] == "dm-0"
            && rows[3][2] == "" && rows[4][2] == "sdb" && rows[5][2] == "dm-0"
  {
    hide Owner;
    var rows := TwoPaths();
    assert "sda" != "dm-0" && "sda" != "dm-1" && "dm-0" != "dm-1";
    assert "sda" != "sdb" && "sdb" != "dm-0" && "sdb" != "dm-1";
    assert rows[0][1] == "sda" && rows[1][1] == "dm-0" && rows[2][1] == "dm-1";
    assert rows[3][1] == "sdb" && rows[4][1] == "dm-0" && rows[5][1] == "dm-1";
  }

  /** With two paths both partition rows go to the second row of the multipath device, and only the first
      of them comes before it: the partition hangs under the second disk's copy of the device and is missing
      from the first disk's. */
  lemma PartitionUnderLastPath()
    ensures Expected(TwoPaths()) == Devices([Disk("sda", "1:0:0:1", [MultipathDevice([])]),
                                             Disk("sdb", "2:0:0:1", [MultipathDevice([PARTITION])])])
  {
    hide Owner, Children;
    var rows := TwoPaths();
    TwoPathsOwners();
    assert FirstOrphan(rows, 0) == 6;
    ChildrenFrom(rows, 2, 2);
    ChildrenFrom(rows, 1, 1);
    ChildrenFrom(rows, 4, 4);
    ChildrenFrom(rows, 0, 6);
    ChildrenFrom(rows, 3, 6);
    assert Roots(rows, 1) == [Value(rows, 0, 6)];
    assert Roots(rows, 3) == [Value(rows, 0, 6)];
    assert Roots(rows, 4) == [Value(rows, 0, 6), Value(rows, 3, 6)];
    assert Roots(rows, 6) == [Value(rows, 0, 6), Value(rows, 3, 6)];
  }

  lemma {:induction false} ChildrenFrom(rows: seq<Row>, i: nat, t: nat)
    requires rows == TwoPaths() && i < 6 && t <= 6
    ensures |rows| == 6
    ensures Children(rows, i, t) ==
            (if i == 0 && t > 1 then [Value(rows, 1, 1)]
             else if i == 3 && t > 4 then [Value(rows, 4, 4)]
             else if i == 4 && t > 5 then [Value(rows, 2, 2), Value(rows, 5, 5)]
             else if i == 4 && t > 2 then [Value(rows, 2, 2)]
             else [])
    decreases t
  {
    hide Owner, Children, Value;
    TwoPathsOwners();
    if t > 0 {
      ChildrenFrom(rows, i, t - 1);
    }
    ChildrenStep(rows, i, t);
  }

  lemma ChildrenStep(rows: seq<Row>, i: nat, t: nat)
    requires Complete(rows) && i < |rows| && t <= |rows|
    ensures Children(rows, i, t) ==
            if t == 0 then []
            else Children(rows, i, t - 1) +
                 if rows[t - 1][2] != "" && Owner(rows, rows[t - 1][2]) == i then [Value(rows, t - 1, t - 1)] else []
  {
  }

  // ---------- The multipath device ----------

  datatype Multipath = Found(device: Device) | NotOneChild | NotShared | NoDevice | NotMultipath

  method GetMultipathDevice(devices: seq<Device>) returns (r: Multipath)
    ensures r.Found? <==>
              && devices != []
              && (forall i :: 0 <= i < |devices| ==> |devices[i].children| == 1)
              && (forall i :: 0 <= i < |devices| ==> devices[i].children[0].name == devices[0].children[0].name)
              && devices[|devices| - 1].children[0].kind == "mpath"
    ensures r.Found? ==> r.device == devices[|devices| - 1].children[0]
    ensures r.NoDevice? <==> devices == []
    ensures r.NotOneChild? ==> exists i :: 0 <= i < |devices| && |devices[i].children| != 1
    ensures r.NotShared? ==>
              exists i, j :: 0 <= j < i < |devices| && |devices[i].children| == 1 && |devices[j].children| == 1 &&
                                            devices[i].children[0].name != devices[j].children[0].name
  {
    var chosen: seq<Device> := [];
    for i := 0 to |devices|
      invariant i == 0 ==> chosen == []
      invariant forall k :: 0 <= k < i ==> |devices[k].children| == 1
      invariant forall k :: 0 <= k < i ==> devices[k].children[0].name == devices[0].children[0].name
      invariant i > 0 ==> chosen == [devices[i - 1].children[0]]
    {
      if |devices[i].children| != 1 {
        return NotOneChild;
      }
      if chosen != [] && devices[i].children[0].name != chosen[0].name {
        return NotShared;
      }
      chosen := [devices[i].children[0]];
    }
    if chosen == [] {
      return NoDevice;
    }
    if chosen[0].kind != "mpath" {
      return NotMultipath;
    }
    return Found(chosen[0]);
  }
}
