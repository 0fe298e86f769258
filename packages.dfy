/** The package tree (class `Package` and the fold over the registry): every
    registered path `p1.….pn.T` puts its class under the short name `T` in the package
    reached from the root by the names `p1 … pn`, creating packages on the way. */
module Packages {
  import opened JsObjects
  import opened Strings
  import opened HaxeTypes
  import Extractor

  class Package {
    var name: Option<string>
    var parent: Package?
    var childPackages: Dict<Package>
    var childTypes: Dict<HaxeClass>
    /** The package names from the root down to this package. */
    ghost var path: seq<string>

    /** A new package registers itself with its parent under its own name. */
    constructor (name: Option<string>, parent: Package?, ghost path: seq<string>)
      requires parent != null ==> name.Some? && parent.childPackages.Valid()
      modifies parent
      ensures this.name == name && this.parent == parent && this.path == path
      ensures childPackages == EmptyDict() && childTypes == EmptyDict()
      ensures parent != null ==>
        parent.childPackages == old(parent.childPackages).Put(name.value, this) &&
        parent.name == old(parent.name) && parent.parent == old(parent.parent) &&
        parent.path == old(parent.path) && parent.childTypes == old(parent.childTypes)
    {
      this.name := name;
      this.parent := parent;
      this.childPackages := EmptyDict();
      this.childTypes := EmptyDict();
      this.path := path;
      new;
      if parent != null {
        parent.AddChildPackage(this);
      }
    }

    method AddChildPackage(child: Package)
      requires child != this && child.name.Some? && childPackages.Valid()
      modifies this
      ensures childPackages == old(childPackages).Put(child.name.value, child)
      ensures name == old(name) && parent == old(parent) && path == old(path) && childTypes == old(childTypes)
    {
      childPackages := childPackages.Put(child.name.value, child);
    }

    /** The child package of that name; when there is none and `create` is set, a new
        one is made and registered.  An existing child is never replaced. */
    method GetChildPackage(name: string, create: bool) returns (child: Package?)
      requires childPackages.Valid()
      modifies this
      ensures this.name == old(this.name) && parent == old(parent) && path == old(path)
      ensures childTypes == old(childTypes) && childPackages.Valid()
      ensures name in old(childPackages.values) ==>
        child == old(childPackages.values[name]) && childPackages == old(childPackages)
      ensures name !in old(childPackages.values) && !create ==>
        child == null && childPackages == old(childPackages)
      ensures name !in old(childPackages.values) && create ==>
        child != null && fresh(child) && childPackages == old(childPackages).Put(name, child) &&
        child.name == Some(name) && child.parent == this && child.path == path + [name] &&
        child.childPackages == EmptyDict() && child.childTypes == EmptyDict()
    {
      child := if name in childPackages.values then childPackages.values[name] else null;
      if child == null && create {
        child := new Package(Some(name), this, path + [name]);
        childPackages := childPackages.Put(name, child);
      }
    }

    /** `getChildPackages()`: the children in key order. */
    function ChildPackages(): seq<Package>
      reads this
      requires childPackages.Valid()
    {
      childPackages.Elements()
    }

    /** `addChildType(child)`: stored under the class's short name. */
    method AddChildType(child: HaxeClass)
      requires childTypes.Valid()
      modifies this
      ensures childTypes == old(childTypes).Put(child.name, child)
      ensures name == old(name) && parent == old(parent) && path == old(path) && childPackages == old(childPackages)
    {
      childTypes := childTypes.Put(child.name, child);
    }

    /** `getChildTypes()`: the classes in key order. */
    function ChildTypes(): seq<HaxeClass>
      reads this
      requires childTypes.Valid()
    {
      childTypes.Elements()
    }
  }


  /** The fields of a package, as a value. */
  datatype Node = Node(name: Option<string>, parent: Package?, path: seq<string>,
                       childPackages: Dict<Package>, childTypes: Dict<HaxeClass>)

  ghost function NodeOf(p: Package): Node
    reads p
  {
    Node(p.name, p.parent, p.path, p.childPackages, p.childTypes)
  }

  /** `view` holds the current fields of every package in `byPath`. */
  ghost predicate Synced(byPath: map<seq<string>, Package>, view: map<seq<string>, Node>)
    reads byPath.Values
  {
    view.Keys == byPath.Keys && forall d :: d in byPath ==> NodeOf(byPath[d]) == view[d]
  }

  /** The shape of the tree, on a snapshot `view` of the packages' fields.  `byPath`
      maps each package's path to the package; `bound` bounds the depth.  The root sits
      at `[]` with no name and no parent; every child `k` of the package at `d` is the
      package at `d + [k]`, and the package at `d + [k]` has name `k`, the package at
      `d` as parent, and is registered there under `k`. */
  ghost predicate Shape(byPath: map<seq<string>, Package>, view: map<seq<string>, Node>, bound: nat) {
    view.Keys == byPath.Keys &&
    [] in view && view[[]].parent == null && view[[]].name == None &&
    NodesOk(view, bound) && ChildrenOk(byPath, view) && ParentsOk(byPath, view)
  }

  ghost predicate NodesOk(view: map<seq<string>, Node>, bound: nat) {
    forall d :: d in view ==>
      |d| <= bound && view[d].path == d &&
      view[d].childPackages.Valid() && view[d].childTypes.Valid()
  }

  ghost predicate ChildrenOk(byPath: map<seq<string>, Package>, view: map<seq<string>, Node>) {
    forall d, k {:trigger view[d].childPackages.values[k]} ::
      d in view && k in view[d].childPackages.values ==>
        d + [k] in byPath && view[d].childPackages.values[k] == byPath[d + [k]]
  }

  ghost predicate ParentsOk(byPath: map<seq<string>, Package>, view: map<seq<string>, Node>) {
    forall d, k {:trigger view[d + [k]]} :: d + [k] in view ==>
      d in view && d in byPath && view[d + [k]].parent == byPath[d] &&
      view[d + [k]].name == Some(k) && k in view[d].childPackages.values
  }

  /** The same shape, read off the packages themselves. */
  ghost predicate TreeInv(byPath: map<seq<string>, Package>, bound: nat)
    reads byPath.Values
  {
    [] in byPath && byPath[[]].parent == null && byPath[[]].name == None &&
    (forall d :: d in byPath ==>
       |d| <= bound && byPath[d].path == d &&
       byPath[d].childPackages.Valid() && byPath[d].childTypes.Valid()) &&
    (forall d, k {:trigger byPath[d].childPackages.values[k]} ::
       d in byPath && k in byPath[d].childPackages.values ==>
         d + [k] in byPath && byPath[d].childPackages.values[k] == byPath[d + [k]]) &&
    (forall d, k {:trigger byPath[d + [k]]} :: d + [k] in byPath ==>
       d in byPath && byPath[d + [k]].parent == byPath[d] &&
       byPath[d + [k]].name == Some(k) && k in byPath[d].childPackages.values)
  }

  lemma ShapeTreeInv(byPath: map<seq<string>, Package>, view: map<seq<string>, Node>, bound: nat)
    requires Synced(byPath, view) && Shape(byPath, view, bound)
    ensures TreeInv(byPath, bound)
  {
    forall d | d in byPath
      ensures |d| <= bound && byPath[d].path == d &&
              byPath[d].childPackages.Valid() && byPath[d].childTypes.Valid()
    {
      assert view[d] == NodeOf(byPath[d]);
    }
    forall d, k | d in byPath && k in byPath[d].childPackages.values
      ensures d + [k] in byPath && byPath[d].childPackages.values[k] == byPath[d + [k]]
    {
      assert view[d] == NodeOf(byPath[d]);
      assert view[d].childPackages.values[k] == byPath[d + [k]];
    }
    forall d, k | d + [k] in byPath
      ensures d in byPath && byPath[d + [k]].parent == byPath[d] &&
              byPath[d + [k]].name == Some(k) && k in byPath[d].childPackages.values
    {
      assert view[d + [k]] == NodeOf(byPath[d + [k]]);
      assert view[d + [k]].parent == byPath[d];
      assert view[d] == NodeOf(byPath[d]);
    }
  }

  /** Walking down from `p` through `childPackages` by the names `segs`
      (`getChildPackage(v)` repeated); null when a name is missing. */
  ghost function Walk(p: Package, segs: seq<string>): Package?
    reads *
    decreases |segs|
  {
    if segs == [] then p
    else if segs[0] in p.childPackages.values then Walk(p.childPackages.values[segs[0]], segs[1..])
    else null
  }

  /** Every prefix of a path in the tree is in the tree. */
  lemma {:induction false} PrefixInTree(byPath: map<seq<string>, Package>, bound: nat, d: seq<string>, j: nat)
    requires TreeInv(byPath, bound) && d in byPath && j <= |d|
    ensures d[..j] in byPath
    decreases |d| - j
  {
    if j < |d| {
      var up := d[..|d| - 1];
      assert up + [d[|d| - 1]] == d;
      assert up in byPath;
      PrefixInTree(byPath, bound, up, j);
      assert up[..j] == d[..j];
    } else {
      assert d[..j] == d;
    }
  }

  /** Walking from the package at `pre` by `suf` reaches the package at `pre + suf`. */
  lemma {:induction false} WalkFrom(byPath: map<seq<string>, Package>, bound: nat, pre: seq<string>, suf: seq<string>)
    requires TreeInv(byPath, bound) && pre + suf in byPath
    ensures pre in byPath && Walk(byPath[pre], suf) == byPath[pre + suf]
    decreases |suf|
  {
    PrefixInTree(byPath, bound, pre + suf, |pre|);
    assert (pre + suf)[..|pre|] == pre;
    if suf == [] {
      assert pre + suf == pre;
    } else {
      var next := pre + [suf[0]];
      assert (pre + [suf[0]]) + suf[1..] == pre + suf;
      PrefixInTree(byPath, bound, pre + suf, |next|);
      assert (pre + suf)[..|next|] == next;
      assert next in byPath;
      WalkFrom(byPath, bound, next, suf[1..]);
    }
  }

  /** Every package in the tree is reached from the root by walking its path. */
  lemma WalkReaches(byPath: map<seq<string>, Package>, bound: nat, d: seq<string>)
    requires TreeInv(byPath, bound) && d in byPath
    ensures Walk(byPath[[]], d) == byPath[d]
  {
    assert [] + d == d;
    WalkFrom(byPath, bound, [], d);
  }

  /** One step of the walk: `getChildPackage(v, true)` on the package at `d` yields the
      package at `d + [v]`, made fresh when it did not exist; no class moves. */
  method Descend(owning: Package, v: string, ghost d: seq<string>,
                 ghost byPath: map<seq<string>, Package>, ghost view: map<seq<string>, Node>, ghost bound: nat)
    returns (child: Package, ghost byPath': map<seq<string>, Package>, ghost view': map<seq<string>, Node>, ghost bound': nat)
    requires Synced(byPath, view) && Shape(byPath, view, bound) && d in byPath && owning == byPath[d]
    modifies owning
    ensures Synced(byPath', view') && Shape(byPath', view', bound')
    ensures d + [v] in byPath' && child == byPath'[d + [v]]
    ensures forall x :: x in byPath ==> x in byPath' && byPath'[x] == byPath[x] && view'[x].childTypes == view[x].childTypes
    ensures forall x :: x in byPath' && x !in byPath ==> fresh(byPath'[x]) && view'[x].childTypes == EmptyDict()
    ensures forall x :: x in byPath' && x !in byPath ==> x == d + [v]
  {
    ghost var existed := v in owning.childPackages.values;
    assert NodeOf(owning) == view[d];
    child := owning.GetChildPackage(v, true);
    forall x | x in byPath && x != d
      ensures NodeOf(byPath[x]) == view[x]
    {
      assert view[x].path == x;
    }
    if !existed {
      GrowStep(byPath, view, bound, d, v, child, NodeOf(owning), NodeOf(child));
      byPath' := byPath[d + [v] := child];
      view' := view[d := NodeOf(owning)][d + [v] := NodeOf(child)];
      bound' := if |d| + 1 > bound then |d| + 1 else bound;
      SyncedAfterGrow(byPath, view, d, v, child);
      GrowKeeps(byPath, view, d, v, child, NodeOf(owning), NodeOf(child));
    } else {
      byPath', view', bound' := byPath, view, bound;
      assert view[d].childPackages.values[v] == byPath[d + [v]];
      SyncedAfterKeep(byPath, view, d);
    }
  }

  /** Registering a new package at `d + [v]` keeps every existing path and every
      existing package's classes. */
  lemma GrowKeeps(byPath: map<seq<string>, Package>, view: map<seq<string>, Node>,
                  d: seq<string>, v: string, c: Package, no: Node, nc: Node)
    requires view.Keys == byPath.Keys && d in view && d + [v] !in byPath && no.childTypes == view[d].childTypes
    ensures forall x :: x in byPath ==>
      x in byPath[d + [v] := c] && byPath[d + [v] := c][x] == byPath[x] &&
      view[d := no][d + [v] := nc][x].childTypes == view[x].childTypes
    ensures forall x :: x in byPath[d + [v] := c] && x !in byPath ==> x == d + [v]
  {
  }

  /** After the package at `d` gained the child `c` under `v`, the updated snapshot is
      in sync when every other package is as before. */
  lemma SyncedAfterGrow(byPath: map<seq<string>, Package>, view: map<seq<string>, Node>,
                        d: seq<string>, v: string, c: Package)
    requires view.Keys == byPath.Keys && d in byPath && d + [v] !in byPath
    requires forall x :: x in byPath && x != d ==> NodeOf(byPath[x]) == view[x]
    ensures Synced(byPath[d + [v] := c], view[d := NodeOf(byPath[d])][d + [v] := NodeOf(c)])
  {
  }

  lemma SyncedAfterSet(byPath: map<seq<string>, Package>, view: map<seq<string>, Node>, d: seq<string>)
    requires view.Keys == byPath.Keys && d in byPath
    requires forall x :: x in byPath && x != d ==> NodeOf(byPath[x]) == view[x]
    ensures Synced(byPath, view[d := NodeOf(byPath[d])])
  {
  }

  lemma SyncedAfterKeep(byPath: map<seq<string>, Package>, view: map<seq<string>, Node>, d: seq<string>)
    requires view.Keys == byPath.Keys && d in byPath && NodeOf(byPath[d]) == view[d]
    requires forall x :: x in byPath && x != d ==> NodeOf(byPath[x]) == view[x]
    ensures Synced(byPath, view)
  {
  }

  /** The walk at src/index.ts:245-248: from the root, get or create the child package
      for each name in turn. */
  method WalkDown(root: Package, names: seq<string>,
                  ghost byPath: map<seq<string>, Package>, ghost view: map<seq<string>, Node>, ghost bound: nat)
    returns (owning: Package, ghost byPath': map<seq<string>, Package>, ghost view': map<seq<string>, Node>, ghost bound': nat)
    requires Synced(byPath, view) && Shape(byPath, view, bound) && root == byPath[[]]
    modifies byPath.Values
    ensures Synced(byPath', view') && Shape(byPath', view', bound') && byPath'[[]] == root
    ensures names in byPath' && owning == byPath'[names]
    ensures forall x :: x in byPath ==> x in byPath' && byPath'[x] == byPath[x] && view'[x].childTypes == view[x].childTypes
    ensures forall x :: x in byPath' && x !in byPath ==> fresh(byPath'[x]) && view'[x].childTypes == EmptyDict()
    ensures forall x :: x in byPath' && x !in byPath ==> x <= names
  {
    owning := root;
    byPath', view', bound' := byPath, view, bound;
    var j := 0;
    assert names[..0] == [];
    while j < |names|
      invariant 0 <= j <= |names|
      invariant Synced(byPath', view') && Shape(byPath', view', bound') && byPath'[[]] == root
      invariant names[..j] in byPath' && owning == byPath'[names[..j]]
      invariant forall x :: x in byPath ==> x in byPath' && byPath'[x] == byPath[x] && view'[x].childTypes == view[x].childTypes
      invariant forall x :: x in byPath' && x !in byPath ==> fresh(byPath'[x]) && view'[x].childTypes == EmptyDict()
      invariant forall x :: x in byPath' && x !in byPath ==> |x| <= j && x == names[..|x|]
    {
      PrefixStep(names, j);
      ghost var kept, keptView := byPath', view';
      owning, byPath', view', bound' := Descend(owning, names[j], names[..j], byPath', view', bound');
      forall x | x in byPath' && x !in byPath
        ensures fresh(byPath'[x]) && view'[x].childTypes == EmptyDict()
      {
        if x in kept {
          assert byPath'[x] == kept[x] && view'[x].childTypes == keptView[x].childTypes;
        }
      }
      PrefixesGrow(byPath.Keys, kept.Keys, byPath'.Keys, names, j);
      j := j + 1;
    }
    assert names[..j] == names;
    PrefixesDone(byPath.Keys, byPath'.Keys, names);
  }

  /** The paths the walk has added after `j + 1` steps are the prefixes of `names`
      it has walked: those after `j` steps and at most `names[..j + 1]`. */
  lemma PrefixesGrow(before: set<seq<string>>, kept: set<seq<string>>, now: set<seq<string>>, names: seq<string>, j: nat)
    requires j < |names|
    requires forall x :: x in kept && x !in before ==> |x| <= j && x == names[..|x|]
    requires forall x :: x in now && x !in kept ==> x == names[..j] + [names[j]]
    ensures forall x :: x in now && x !in before ==> |x| <= j + 1 && x == names[..|x|]
  {
    forall x | x in now && x !in before
      ensures |x| <= j + 1 && x == names[..|x|]
    {
      if x !in kept {
        assert names[..j + 1] == names[..j] + [names[j]];
      }
    }
  }

  lemma PrefixesDone(before: set<seq<string>>, now: set<seq<string>>, names: seq<string>)
    requires forall x :: x in now && x !in before ==> |x| <= |names| && x == names[..|x|]
    ensures forall x :: x in now && x !in before ==> x <= names
  {
  }

  lemma PrefixStep(names: seq<string>, j: nat)
    requires j < |names|
    ensures names[..j + 1] == names[..j] + [names[j]]
  {
  }

  /** `owningPackage.addChildType(type)` on the package at `d`. */
  method AddType(owning: Package, ty: HaxeClass, ghost d: seq<string>,
                 ghost byPath: map<seq<string>, Package>, ghost view: map<seq<string>, Node>, ghost bound: nat)
    returns (ghost view': map<seq<string>, Node>)
    requires Synced(byPath, view) && Shape(byPath, view, bound) && d in byPath && owning == byPath[d]
    modifies owning
    ensures Synced(byPath, view') && Shape(byPath, view', bound)
    ensures view' == view[d := view[d].(childTypes := view[d].childTypes.Put(ty.name, ty))]
  {
    owning.AddChildType(ty);
    view' := view[d := NodeOf(owning)];
    forall x | x in byPath && x != d
      ensures NodeOf(byPath[x]) == view[x]
    {
      assert view[x].path == x;
    }
    SyncedAfterSet(byPath, view, d);
    NewTypesShape(byPath, view, view', bound);
  }

  /** The classes of every package, by path. */
  function Entries(view: map<seq<string>, Node>): (m: map<seq<string>, map<string, HaxeClass>>)
    ensures m.Keys == view.Keys
    ensures forall d :: d in view ==> m[d] == view[d].childTypes.values
  {
    map d | d in view :: view[d].childTypes.values
  }

  /** The classes at `x` once `c` has been added to the package at `d`; a package that
      did not exist before has none of its own. */
  function AfterAdd(before: map<seq<string>, map<string, HaxeClass>>, x: seq<string>, d: seq<string>, c: HaxeClass): map<string, HaxeClass> {
    var m := if x in before then before[x] else map[];
    if x == d then m[c.name := c] else m
  }

  /** The body of the fold at src/index.ts:238-250 for one class: walk to (creating as
      needed) the package its leading path parts name, then add the class there under
      its short name.  Nothing else changes. */
  method Place(root: Package, ty: HaxeClass,
               ghost byPath: map<seq<string>, Package>, ghost view: map<seq<string>, Node>, ghost bound: nat)
    returns (ghost byPath': map<seq<string>, Package>, ghost view': map<seq<string>, Node>, ghost bound': nat)
    requires Synced(byPath, view) && Shape(byPath, view, bound) && root == byPath[[]]
    modifies byPath.Values
    ensures Synced(byPath', view') && Shape(byPath', view', bound') && byPath'[[]] == root
    ensures forall x :: x in byPath ==> x in byPath' && byPath'[x] == byPath[x]
    ensures forall x :: x in byPath' && x !in byPath ==> fresh(byPath'[x])
    ensures InitParts(ty.path, '.') in byPath'
    ensures forall x :: x in byPath' && x !in byPath ==> x <= InitParts(ty.path, '.')
    ensures forall x :: x in view' ==> Entries(view')[x] == AfterAdd(Entries(view), x, InitParts(ty.path, '.'), ty)
  {
    var pathComponents := Split(ty.path, '.');
    pathComponents := pathComponents[..|pathComponents| - 1];
    var owningPackage;
    ghost var walked;
    owningPackage, byPath', walked, bound' := WalkDown(root, pathComponents, byPath, view, bound);
    view' := AddType(owningPackage, ty, pathComponents, byPath', walked, bound');
    EntriesAfterAdd(view, walked, view', pathComponents, ty);
  }

  /** The classes after `Place`, on the snapshots: those of `walked` are the ones of
      `view` plus empty packages, and `view'` adds `c` to the package at `d`. */
  lemma EntriesAfterAdd(view: map<seq<string>, Node>, walked: map<seq<string>, Node>, view': map<seq<string>, Node>,
                        d: seq<string>, c: HaxeClass)
    requires view.Keys <= walked.Keys && d in walked
    requires forall x :: x in view ==> walked[x].childTypes == view[x].childTypes
    requires forall x :: x in walked && x !in view ==> walked[x].childTypes == EmptyDict()
    requires walked[d].childTypes.Valid()
    requires view' == walked[d := walked[d].(childTypes := walked[d].childTypes.Put(c.name, c))]
    ensures forall x :: x in view' ==> Entries(view')[x] == AfterAdd(Entries(view), x, d, c)
  {
    var before := Entries(view);
    forall x | x in view'
      ensures Entries(view')[x] == AfterAdd(before, x, d, c)
    {
      var m := if x in before then before[x] else map[];
      assert walked[x].childTypes.values == m;
    }
  }

  /** The class registered under `key` sits in the package at its leading path parts,
      under its short name. */
  ghost predicate Placed(byPath: map<seq<string>, Package>, key: string, c: HaxeClass)
    reads byPath.Values
  {
    InitParts(key, '.') in byPath && byPath[InitParts(key, '.')].childTypes.Get(LastPart(key, '.')) == Some(c)
  }

  /** `Placed` on the value of `Entries`. */
  ghost predicate PlacedIn(entries: map<seq<string>, map<string, HaxeClass>>, key: string, c: HaxeClass) {
    InitParts(key, '.') in entries && LastPart(key, '.') in entries[InitParts(key, '.')] &&
    entries[InitParts(key, '.')][LastPart(key, '.')] == c
  }

  /** A placed class is found by walking from the root down its leading path parts
      with `getChildPackage` and looking up its short name. */
  lemma PlacedReachable(byPath: map<seq<string>, Package>, bound: nat, key: string, c: HaxeClass)
    requires TreeInv(byPath, bound) && Placed(byPath, key, c)
    ensures Walk(byPath[[]], InitParts(key, '.')) != null
    ensures Walk(byPath[[]], InitParts(key, '.')).childTypes.Get(LastPart(key, '.')) == Some(c)
  {
    WalkReaches(byPath, bound, InitParts(key, '.'));
  }

  /** In a tree, `getChildPackages()` of the package at `d` lists, in key order, the
      packages one step below it: the `i`-th is the package at `d` plus the `i`-th key,
      named by that key and with the package at `d` as parent; and every package one
      step below `d` is listed. */
  lemma ChildPackagesAt(byPath: map<seq<string>, Package>, bound: nat, d: seq<string>)
    requires TreeInv(byPath, bound) && d in byPath
    ensures var p := byPath[d];
            |p.ChildPackages()| == |p.childPackages.keys| &&
            forall i :: 0 <= i < |p.childPackages.keys| ==>
              d + [p.childPackages.keys[i]] in byPath &&
              p.ChildPackages()[i] == byPath[d + [p.childPackages.keys[i]]] &&
              p.ChildPackages()[i].name == Some(p.childPackages.keys[i]) &&
              p.ChildPackages()[i].parent == p
    ensures forall k :: d + [k] in byPath ==> byPath[d + [k]] in byPath[d].ChildPackages()
  {
    var p := byPath[d];
    forall i | 0 <= i < |p.childPackages.keys|
      ensures d + [p.childPackages.keys[i]] in byPath &&
              p.ChildPackages()[i] == byPath[d + [p.childPackages.keys[i]]]
    {
      assert p.childPackages.keys[i] in p.childPackages.values;
    }
    forall k | d + [k] in byPath
      ensures byPath[d + [k]] in p.ChildPackages()
    {
      var i :| 0 <= i < |p.childPackages.keys| && p.childPackages.keys[i] == k;
      assert p.ChildPackages()[i] == byPath[d + [k]];
    }
  }

  /** In a tree, a class placed at its path is among `getChildTypes()` of its
      package. */
  lemma ChildTypesListed(byPath: map<seq<string>, Package>, bound: nat, key: string, c: HaxeClass)
    requires TreeInv(byPath, bound) && Placed(byPath, key, c)
    ensures c in byPath[InitParts(key, '.')].ChildTypes()
  {
    var p := byPath[InitParts(key, '.')];
    var i :| 0 <= i < |p.childTypes.keys| && p.childTypes.keys[i] == LastPart(key, '.');
    assert p.ChildTypes()[i] == c;
  }

  /** The fold at src/index.ts:238-250: a root package with no name, then every
      registered class, in key order, is added to the package its path names. */
  method BuildPackageTree(types: Dict<HaxeClass>)
    returns (root: Package, ghost byPath: map<seq<string>, Package>, ghost view: map<seq<string>, Node>, ghost bound: nat)
    requires Extractor.WellKeyed(types)
    ensures TreeInv(byPath, bound) && root == byPath[[]]
    ensures Synced(byPath, view) && Shape(byPath, view, bound)
    ensures forall d :: d in byPath ==> fresh(byPath[d])
    ensures forall k :: k in types.values ==> Placed(byPath, k, types.values[k])
    ensures forall d, t :: d in byPath && t in byPath[d].childTypes.values ==>
      exists k :: k in types.values && InitParts(k, '.') == d && LastPart(k, '.') == t
    ensures forall d :: d in byPath ==> d == [] || exists k :: k in types.values && d <= InitParts(k, '.')
  {
    root, byPath, view, bound := NewTree();
    var i := 0;
    while i < |types.keys|
      invariant 0 <= i <= |types.keys|
      invariant Synced(byPath, view) && Shape(byPath, view, bound) && root == byPath[[]]
      invariant forall d :: d in byPath ==> fresh(byPath[d])
      invariant forall j :: 0 <= j < i ==> PlacedIn(Entries(view), types.keys[j], types.values[types.keys[j]])
      invariant forall d, t :: d in view && t in view[d].childTypes.values ==>
        exists j :: 0 <= j < i && InitParts(types.keys[j], '.') == d && LastPart(types.keys[j], '.') == t
      invariant OnRegisteredPaths(types, i, byPath.Keys)
    {
      byPath, view, bound := PlaceNext(root, types, i, byPath, view, bound);
      i := i + 1;
    }
    ShapeTreeInv(byPath, view, bound);
    EntriesPlaced(types, byPath, view);
    RegisteredPaths(types, byPath);
  }

  /** `new Package(null, null)`: the tree that holds the root alone. */
  method NewTree() returns (root: Package, ghost byPath: map<seq<string>, Package>, ghost view: map<seq<string>, Node>, ghost bound: nat)
    ensures Synced(byPath, view) && Shape(byPath, view, bound) && root == byPath[[]] && fresh(root)
    ensures byPath == map[[] := root] && view[[]].childTypes == EmptyDict()
  {
    root := new Package(None, null, []);
    byPath, bound := map[[] := root], 0;
    view := map[[] := NodeOf(root)];
    forall d: seq<string>, k: string
      ensures d + [k] !in view
    {
      assert |d + [k]| == |d| + 1;
    }
  }

  /** With nothing registered, the tree is the root alone. */
  lemma EmptyRegistryTree(types: Dict<HaxeClass>, byPath: map<seq<string>, Package>)
    requires types.Valid() && types.keys == []
    requires forall d :: d in byPath ==> d == [] || exists k :: k in types.values && d <= InitParts(k, '.')
    ensures forall d :: d in byPath ==> d == []
  {
  }

  /** `d` is the root or lies on the way to the package of one of the first `n`
      registered paths. */
  ghost predicate OnRegisteredPath(types: Dict<HaxeClass>, n: nat, d: seq<string>) {
    d == [] || exists j :: 0 <= j < n && j < |types.keys| && d <= InitParts(types.keys[j], '.')
  }

  ghost predicate OnRegisteredPaths(types: Dict<HaxeClass>, n: nat, ds: set<seq<string>>) {
    forall d :: d in ds ==> OnRegisteredPath(types, n, d)
  }

  /** Once every key is folded in, every package is the root or lies on the way to
      the package of a registered path. */
  lemma RegisteredPaths(types: Dict<HaxeClass>, byPath: map<seq<string>, Package>)
    requires types.Valid() && OnRegisteredPaths(types, |types.keys|, byPath.Keys)
    ensures forall d :: d in byPath ==> d == [] || exists k :: k in types.values && d <= InitParts(k, '.')
  {
    forall d | d in byPath && d != []
      ensures exists k :: k in types.values && d <= InitParts(k, '.')
    {
      assert OnRegisteredPath(types, |types.keys|, d);
      var j :| 0 <= j < |types.keys| && d <= InitParts(types.keys[j], '.');
      assert types.keys[j] in types.values;
    }
  }

  /** The body of the loop over the registry: the `i`th class is placed. */
  method PlaceNext(root: Package, types: Dict<HaxeClass>, i: nat,
                   ghost byPath: map<seq<string>, Package>, ghost view: map<seq<string>, Node>, ghost bound: nat)
    returns (ghost byPath': map<seq<string>, Package>, ghost view': map<seq<string>, Node>, ghost bound': nat)
    requires Extractor.WellKeyed(types) && i < |types.keys|
    requires Synced(byPath, view) && Shape(byPath, view, bound) && root == byPath[[]]
    requires forall j :: 0 <= j < i ==> PlacedIn(Entries(view), types.keys[j], types.values[types.keys[j]])
    requires forall d, t :: d in view && t in view[d].childTypes.values ==>
      exists j :: 0 <= j < i && InitParts(types.keys[j], '.') == d && LastPart(types.keys[j], '.') == t
    requires OnRegisteredPaths(types, i, byPath.Keys)
    modifies byPath.Values
    ensures Synced(byPath', view') && Shape(byPath', view', bound') && root == byPath'[[]]
    ensures forall x :: x in byPath ==> x in byPath' && byPath'[x] == byPath[x]
    ensures forall x :: x in byPath' && x !in byPath ==> fresh(byPath'[x])
    ensures forall j :: 0 <= j < i + 1 ==> PlacedIn(Entries(view'), types.keys[j], types.values[types.keys[j]])
    ensures forall d, t :: d in view' && t in view'[d].childTypes.values ==>
      exists j :: 0 <= j < i + 1 && InitParts(types.keys[j], '.') == d && LastPart(types.keys[j], '.') == t
    ensures OnRegisteredPaths(types, i + 1, byPath'.Keys)
  {
    var name := types.keys[i];
    var ty := types.values[name];
    ghost var entries := Entries(view);
    byPath', view', bound' := Place(root, ty, byPath, view, bound);
    FoldStep(types, i, entries, Entries(view'));
    assert name in types.values;
    forall d | d in byPath'
      ensures OnRegisteredPath(types, i + 1, d)
    {
      if d in byPath {
        assert OnRegisteredPath(types, i, d);
      } else {
        assert d <= InitParts(types.keys[i], '.');
      }
    }
  }

  /** Once the whole registry is folded in, the invariant on `Entries` reads back as
      the two directions of `Placed`. */
  lemma EntriesPlaced(types: Dict<HaxeClass>, byPath: map<seq<string>, Package>, view: map<seq<string>, Node>)
    requires types.Valid() && Synced(byPath, view)
    requires forall j :: 0 <= j < |types.keys| ==> PlacedIn(Entries(view), types.keys[j], types.values[types.keys[j]])
    requires forall d, t :: d in view && t in view[d].childTypes.values ==>
      exists j :: 0 <= j < |types.keys| && InitParts(types.keys[j], '.') == d && LastPart(types.keys[j], '.') == t
    ensures forall k :: k in types.values ==> Placed(byPath, k, types.values[k])
    ensures forall d, t :: d in byPath && t in byPath[d].childTypes.values ==>
      exists k :: k in types.values && InitParts(k, '.') == d && LastPart(k, '.') == t
  {
    forall k | k in types.values
      ensures Placed(byPath, k, types.values[k])
    {
      var j :| 0 <= j < |types.keys| && types.keys[j] == k;
      assert PlacedIn(Entries(view), types.keys[j], types.values[types.keys[j]]);
      assert view[InitParts(k, '.')] == NodeOf(byPath[InitParts(k, '.')]);
    }
    forall d, t | d in byPath && t in byPath[d].childTypes.values
      ensures exists k :: k in types.values && InitParts(k, '.') == d && LastPart(k, '.') == t
    {
      assert view[d] == NodeOf(byPath[d]);
      var j :| 0 <= j < |types.keys| && InitParts(types.keys[j], '.') == d && LastPart(types.keys[j], '.') == t;
      assert types.keys[j] in types.values;
    }
  }

  /** One class of the fold, on the values of `Entries`: every class so far stays
      where it was put, the new one is put at its path, and nothing else appears. */
  lemma FoldStep(types: Dict<HaxeClass>, i: nat, entries: map<seq<string>, map<string, HaxeClass>>,
                 entries': map<seq<string>, map<string, HaxeClass>>)
    requires Extractor.WellKeyed(types) && i < |types.keys|
    requires forall j :: 0 <= j < i ==> PlacedIn(entries, types.keys[j], types.values[types.keys[j]])
    requires forall d, t :: d in entries && t in entries[d] ==>
      exists j :: 0 <= j < i && InitParts(types.keys[j], '.') == d && LastPart(types.keys[j], '.') == t
    requires entries.Keys <= entries'.Keys && InitParts(types.values[types.keys[i]].path, '.') in entries'
    requires forall x :: x in entries' ==>
      entries'[x] == AfterAdd(entries, x, InitParts(types.values[types.keys[i]].path, '.'), types.values[types.keys[i]])
    ensures forall j :: 0 <= j < i + 1 ==> PlacedIn(entries', types.keys[j], types.values[types.keys[j]])
    ensures forall d, t :: d in entries' && t in entries'[d] ==>
      exists j :: 0 <= j < i + 1 && InitParts(types.keys[j], '.') == d && LastPart(types.keys[j], '.') == t
  {
    var key := types.keys[i];
    assert key in types.values;
    var ty := types.values[key];
    assert ty.path == key && ty.name == LastPart(key, '.');
    forall j | 0 <= j < i + 1
      ensures PlacedIn(entries', types.keys[j], types.values[types.keys[j]])
    {
      if j < i {
        var kj := types.keys[j];
        assert PlacedIn(entries, kj, types.values[kj]);
        if InitParts(kj, '.') == InitParts(key, '.') && LastPart(kj, '.') == LastPart(key, '.') {
          InitLastInjective(kj, key, '.');
        }
      }
    }
    forall d, t | d in entries' && t in entries'[d]
      ensures exists j :: 0 <= j < i + 1 && InitParts(types.keys[j], '.') == d && LastPart(types.keys[j], '.') == t
    {
      if d == InitParts(key, '.') && t == ty.name {
        assert InitParts(types.keys[i], '.') == d && LastPart(types.keys[i], '.') == t;
      } else {
        assert d in entries && t in entries[d];
        var j :| 0 <= j < i && InitParts(types.keys[j], '.') == d && LastPart(types.keys[j], '.') == t;
      }
    }
  }

  lemma AppendOneInjective(x: seq<string>, k: string, d: seq<string>, v: string)
    requires x + [k] == d + [v]
    ensures x == d && k == v
  {
    assert |x| == |d|;
    assert x == (x + [k])[..|x|] && d == (d + [v])[..|d|];
    assert k == (x + [k])[|x|] && v == (d + [v])[|d|];
  }

  /** `GrowShape` with the snapshot after the step built from the two changed packages:
      `no` is the package at `d` with `c` added under `v`, `nc` the new package. */
  lemma GrowStep(before: map<seq<string>, Package>, vb: map<seq<string>, Node>, b: nat,
                 d: seq<string>, v: string, c: Package, no: Node, nc: Node)
    requires Shape(before, vb, b) && d in before && v !in vb[d].childPackages.values && c !in before.Values
    requires no == vb[d].(childPackages := vb[d].childPackages.Put(v, c))
    requires nc == Node(Some(v), before[d], d + [v], EmptyDict(), EmptyDict())
    ensures d + [v] !in before
    ensures Shape(before[d + [v] := c], vb[d := no][d + [v] := nc], if |d| + 1 > b then |d| + 1 else b)
  {
    assert d + [v] !in vb;
    var after, va := before[d + [v] := c], vb[d := no][d + [v] := nc];
    var bound := if |d| + 1 > b then |d| + 1 else b;
    assert va[d + [v]] == nc && va[d] == no;
    GrowShape(before, vb, b, d, v, c, after, va, bound);
  }

  /** Adding the fresh child `c`, named `v`, to the package at `d` keeps the tree's
      shape: `va` is the snapshot after the step, `vb` the one before. */
  lemma GrowShape(before: map<seq<string>, Package>, vb: map<seq<string>, Node>, b: nat,
                  d: seq<string>, v: string, c: Package,
                  after: map<seq<string>, Package>, va: map<seq<string>, Node>, bound: nat)
    requires Grown(before, vb, b, d, v, c, after, va, bound)
    ensures Shape(after, va, bound)
  {
    assert d + [v] != [];
    GrowNodes(before, vb, b, d, v, c, after, va, bound);
    GrowChildren(before, vb, b, d, v, c, after, va, bound);
    GrowParents(before, vb, b, d, v, c, after, va, bound);
  }

  /** The step `GrowShape` takes: the package at `d` gains the new child `c` under `v`
      and nothing else changes. */
  ghost predicate Grown(before: map<seq<string>, Package>, vb: map<seq<string>, Node>, b: nat,
                        d: seq<string>, v: string, c: Package,
                        after: map<seq<string>, Package>, va: map<seq<string>, Node>, bound: nat)
  {
    Shape(before, vb, b) && d in before && d + [v] !in before && c !in before.Values &&
    after == before[d + [v] := c] && bound >= b && bound >= |d| + 1 &&
    v !in vb[d].childPackages.values && va.Keys == after.Keys &&
    (forall x :: x in before && x != d ==> va[x] == vb[x]) &&
    va[d] == vb[d].(childPackages := vb[d].childPackages.Put(v, c)) &&
    va[d + [v]] == Node(Some(v), before[d], d + [v], EmptyDict(), EmptyDict())
  }

  lemma GrowNodes(before: map<seq<string>, Package>, vb: map<seq<string>, Node>, b: nat,
                  d: seq<string>, v: string, c: Package,
                  after: map<seq<string>, Package>, va: map<seq<string>, Node>, bound: nat)
    requires Grown(before, vb, b, d, v, c, after, va, bound)
    ensures NodesOk(va, bound)
  {
    forall x | x in va
      ensures |x| <= bound && va[x].path == x && va[x].childPackages.Valid() && va[x].childTypes.Valid()
    {
    }
  }

  lemma GrowChildren(before: map<seq<string>, Package>, vb: map<seq<string>, Node>, b: nat,
                     d: seq<string>, v: string, c: Package,
                     after: map<seq<string>, Package>, va: map<seq<string>, Node>, bound: nat)
    requires Grown(before, vb, b, d, v, c, after, va, bound)
    ensures ChildrenOk(after, va)
  {
    forall x, k | x in va && k in va[x].childPackages.values
      ensures x + [k] in after && va[x].childPackages.values[k] == after[x + [k]]
    {
      if x != d + [v] {
        if x == d {
          if k != v {
            assert k in vb[x].childPackages.values;
            assert vb[x].childPackages.values[k] == before[x + [k]];
            assert x + [k] != d + [v];
          }
        } else {
          assert va[x] == vb[x];
          assert vb[x].childPackages.values[k] == before[x + [k]];
          assert x + [k] != d + [v];
        }
      }
    }
  }

  lemma GrowParents(before: map<seq<string>, Package>, vb: map<seq<string>, Node>, b: nat,
                    d: seq<string>, v: string, c: Package,
                    after: map<seq<string>, Package>, va: map<seq<string>, Node>, bound: nat)
    requires Grown(before, vb, b, d, v, c, after, va, bound)
    ensures ParentsOk(after, va)
  {
    forall x, k | x + [k] in va
      ensures x in va && va[x + [k]].parent == after[x] &&
              va[x + [k]].name == Some(k) && k in va[x].childPackages.values
    {
      if x + [k] == d + [v] {
        AppendOneInjective(x, k, d, v);
      } else {
        assert vb[x + [k]].parent == before[x];
        assert x in before && x != d + [v];
        if x + [k] != d {
          assert va[x + [k]] == vb[x + [k]];
        }
      }
    }
  }

  /** Changing only the classes of the package at `d`, keeping them a well-formed
      dictionary, keeps the tree's shape. */
  lemma NewTypesShape(byPath: map<seq<string>, Package>, view: map<seq<string>, Node>, view': map<seq<string>, Node>, bound: nat)
    requires Shape(byPath, view, bound) && view'.Keys == view.Keys
    requires forall x :: x in view' ==> view'[x].(childTypes := view[x].childTypes) == view[x] && view'[x].childTypes.Valid()
    ensures Shape(byPath, view', bound)
  {
    forall x | x in view'
      ensures view'[x].name == view[x].name && view'[x].parent == view[x].parent && view'[x].path == view[x].path &&
              view'[x].childPackages == view[x].childPackages
    {
      assert view'[x].(childTypes := view[x].childTypes) == view[x];
    }
  }
}
