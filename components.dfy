/**
  ComponentService: components of a project, kept in a store keyed by id.
  Saving validates the name, the version, their uniqueness among the
  project's live (not deleted) components and the relative path; copying
  picks a fresh name with getName; delete and restore flip the `deleted`
  flag; clean removes the entity; update replaces the fields given.

  An empty string stands for both `null` and "" wherever the source only
  asks StringUtils.isEmpty; the description, which the source compares
  with `equals`, keeps `null` apart as `None`.
*/
module Components {
  import opened Wrappers

  datatype Component = Component(
    name: string,
    version: string,
    relativePath: string,
    description: Option<string>,
    deleted: bool,
    project: string)

  /** The exceptions the service throws, by the message they carry. */
  datatype ComponentError =
    | NameArgsNotFound
    | VersionArgsNotFound
    | NameVersionExisted(name: string, version: string)
    | RelativePathArgsNotFound
    | IdNotFound(id: string)
    | NullDescription          // the stored description is null and compared with `equals`

  type Store = map<string, Component>

  /** The arguments of updateComponentById; "" is a field left out. */
  datatype ComponentArgs = ComponentArgs(name: string, version: string, relativePath: string, description: Option<string>)

  // ---------------------------------------------------------------------
  // Lookups
  // ---------------------------------------------------------------------

  /** A component with this name, version, deleted flag and project. */
  predicate Matches(c: Component, name: string, version: string, deleted: bool, project: string) {
    c.name == name && c.version == version && c.deleted == deleted && c.project == project
  }

  /** hasComponentByNameAndVersionAndDeletedAndProject. */
  function HasByNameVersion(store: Store, name: string, version: string, deleted: bool, project: string): (b: bool)
    ensures name == "" || version == "" ==> !b
    ensures b <==> name != "" && version != "" && exists id :: id in store && Matches(store[id], name, version, deleted, project)
  {
    name != "" && version != "" &&
    exists id :: id in store && Matches(store[id], name, version, deleted, project)
  }

  /** hasComponentById. */
  predicate HasById(store: Store, id: string) {
    id != "" && id in store
  }

  /** getComponentById: the component, or the not-found error for an empty or unknown id. */
  function GetById(store: Store, id: string): (r: Result<Component, ComponentError>)
    ensures r.Success? <==> id != "" && id in store
    ensures r.Success? ==> r.value == store[id]
    ensures r.Failure? ==> r.error == IdNotFound(id)
  {
    if HasById(store, id) then Success(store[id]) else Failure(IdNotFound(id))
  }

  // ---------------------------------------------------------------------
  // The invariant saving is meant to keep
  // ---------------------------------------------------------------------

  /** Every stored component has a name and a version. */
  predicate Named(store: Store) {
    forall id :: id in store ==> store[id].name != "" && store[id].version != ""
  }

  /** No two live components of one project share a name and a version. */
  predicate Unique(store: Store) {
    forall a, b ::
      (a in store && b in store && a != b && !store[a].deleted && !store[b].deleted && store[a].project == store[b].project)
      ==> store[a].name != store[b].name || store[a].version != store[b].version
  }

  /** A component with this pair is not live in the project. */
  lemma NotTaken(store: Store, c: Component, id: string)
    requires c.name != "" && c.version != "" && !HasByNameVersion(store, c.name, c.version, false, c.project)
    requires id in store && !store[id].deleted && store[id].project == c.project
    ensures store[id].name != c.name || store[id].version != c.version
  {
  }

  /** Adding, under a new id, a component whose pair is not live in its project keeps the store unique. */
  lemma AddKeepsUnique(store: Store, id: string, c: Component)
    requires Unique(store) && Named(store) && id !in store
    requires c.name != "" && c.version != ""
    requires !c.deleted ==> !HasByNameVersion(store, c.name, c.version, false, c.project)
    ensures Unique(store[id := c]) && Named(store[id := c])
  {
    var s := store[id := c];
    forall a, b | a in s && b in s && a != b && !s[a].deleted && !s[b].deleted && s[a].project == s[b].project
      ensures s[a].name != s[b].name || s[a].version != s[b].version
    {
      if a == id {
        NotTaken(store, c, b);
      } else if b == id {
        NotTaken(store, c, a);
      }
    }
  }

  // ---------------------------------------------------------------------
  // saveComponentByProject
  // ---------------------------------------------------------------------

  /** The checks of saveComponentByProject, in order: the first one that fails, or None. */
  function ValidateSave(store: Store, project: string, c: Component): (r: Option<ComponentError>)
    ensures r.None? <==> c.name != "" && c.version != "" && c.relativePath != ""
                         && !HasByNameVersion(store, c.name, c.version, false, project)
    ensures c.name == "" ==> r == Some(NameArgsNotFound)
    ensures c.name != "" && c.version == "" ==> r == Some(VersionArgsNotFound)
    ensures c.name != "" && c.version != "" && HasByNameVersion(store, c.name, c.version, false, project) ==>
      r == Some(NameVersionExisted(c.name, c.version))
    ensures (c.name != "" && c.version != "" && c.relativePath == ""
             && !HasByNameVersion(store, c.name, c.version, false, project)) ==>
      r == Some(RelativePathArgsNotFound)
  {
    if c.name == "" then Some(NameArgsNotFound)
    else if c.version == "" then Some(VersionArgsNotFound)
    else if HasByNameVersion(store, c.name, c.version, false, project) then Some(NameVersionExisted(c.name, c.version))
    else if c.relativePath == "" then Some(RelativePathArgsNotFound)
    else None
  }

  /** The entity saveComponentByProject stores: its path formatted, its project set. */
  function Saved(c: Component, project: string, formatPath: string -> string): Component {
    c.(relativePath := formatPath(c.relativePath), project := project)
  }

  /** A save that passes the checks, under a new id, keeps the store unique. */
  lemma SaveKeepsUnique(store: Store, project: string, c: Component, id: string, formatPath: string -> string)
    requires Unique(store) && Named(store) && id !in store
    requires ValidateSave(store, project, c).None?
    ensures Unique(store[id := Saved(c, project, formatPath)]) && Named(store[id := Saved(c, project, formatPath)])
  {
    AddKeepsUnique(store, id, Saved(c, project, formatPath));
  }

  // ---------------------------------------------------------------------
  // getName
  // ---------------------------------------------------------------------

  /** The decimal digits of n, as Integer.toString writes a non-negative int. */
  function NatToString(n: nat): (s: string)
    ensures |s| > 0
    decreases n
  {
    var d := ['0', '1', '2', '3', '4', '5', '6', '7', '8', '9'][n % 10];
    if n < 10 then [d] else NatToString(n / 10) + [d]
  }

  /** The name after k rounds of getName's loop: name, name(1), name(1)(2), ... */
  function Suffixed(name: string, k: nat): (r: string)
    ensures |r| >= |name| + 3 * k && r[..|name|] == name
  {
    if k == 0 then name else Suffixed(name, k - 1) + "(" + NatToString(k) + ")"
  }

  /** The length of the longest name in the store. */
  ghost function LongestName(store: Store): (m: nat)
    ensures forall id :: id in store ==> |store[id].name| <= m
    decreases |store|
  {
    if store == map[] then 0
    else
      var id :| id in store;
      var rest := LongestName(store - {id});
      assert forall other :: other in store && other != id ==> other in store - {id};
      if |store[id].name| > rest then |store[id].name| else rest
  }

  /** A name that is taken is no longer than the longest stored name. */
  lemma TakenIsShort(store: Store, name: string, version: string, project: string)
    requires HasByNameVersion(store, name, version, false, project)
    ensures |name| <= LongestName(store)
  {
    var id :| id in store && Matches(store[id], name, version, false, project);
  }

  /** Every candidate before round k is taken among the project's live components of this version. */
  ghost predicate AllTaken(store: Store, name: string, version: string, project: string, k: nat) {
    forall j: nat :: j < k ==> HasByNameVersion(store, Suffixed(name, j), version, false, project)
  }

  /** A unique name for a copy of `name` among the project's live components of this version. */
  ghost predicate FreshName(store: Store, name: string, version: string, project: string, r: string) {
    && !HasByNameVersion(store, r, version, false, project)
    && exists k: nat :: r == Suffixed(name, k) && AllTaken(store, name, version, project, k)
  }

  /** A name nobody holds is its own fresh copy name: getName returns it unchanged. */
  lemma FreshNameHeld(store: Store, name: string, version: string, project: string)
    requires !HasByNameVersion(store, name, version, false, project)
    ensures FreshName(store, name, version, project, name)
  {
    assert name == Suffixed(name, 0);
  }

  /** One more taken candidate extends the taken prefix. */
  lemma AllTakenNext(store: Store, name: string, version: string, project: string, k: nat)
    requires AllTaken(store, name, version, project, k)
    requires HasByNameVersion(store, Suffixed(name, k), version, false, project)
    ensures AllTaken(store, name, version, project, k + 1)
  {
  }

  // ---------------------------------------------------------------------
  // Delete, restore, clean
  // ---------------------------------------------------------------------

  /** The store after the component at id has its `deleted` flag set to `flag`. */
  function WithDeleted(store: Store, id: string, flag: bool): (r: Store)
    requires id in store
    ensures r.Keys == store.Keys && r[id].deleted == flag
    ensures forall other :: other in store && other != id ==> r[other] == store[other]
  {
    store[id := store[id].(deleted := flag)]
  }

  /** Deleting twice is deleting once, and so is restoring. */
  lemma {:induction false} DeleteRestoreIdempotent(store: Store, id: string, flag: bool)
    requires id in store
    ensures WithDeleted(WithDeleted(store, id, flag), id, flag) == WithDeleted(store, id, flag)
  {
  }

  /** Restoring a component that was live before it was deleted gives the store back. */
  lemma {:induction false} RestoreUndoesDelete(store: Store, id: string)
    requires id in store && !store[id].deleted
    ensures WithDeleted(WithDeleted(store, id, true), id, false) == store
  {
    assert store[id].(deleted := false) == store[id];
  }

  /** Deleting a component never breaks uniqueness. */
  lemma DeleteKeepsUnique(store: Store, id: string)
    requires id in store && Unique(store)
    ensures Unique(WithDeleted(store, id, true))
  {
  }

  /**
    Restoring does not check for duplicates: a deleted component comes back
    beside a live one saved later under its name and version.
  */
  lemma RestoreMayDuplicate()
    ensures var live := Component("x", "1", "p", None, false, "P");
      var store := map["a" := live.(deleted := true), "b" := live];
      Unique(store) && !Unique(WithDeleted(store, "a", false))
  {
    var live := Component("x", "1", "p", None, false, "P");
    var store := map["a" := live.(deleted := true), "b" := live];
    var after := WithDeleted(store, "a", false);
    assert after["a"] == after["b"];
  }

  // ---------------------------------------------------------------------
  // updateComponentById
  // ---------------------------------------------------------------------

  /** The component once the given fields are changed (the duplicate check passed). */
  function Applied(c: Component, args: ComponentArgs): (r: Component)
    requires args.description.Some? ==> c.description.Some?
    ensures r.name == (if args.name != "" then args.name else c.name)
    ensures r.version == (if args.version != "" then args.version else c.version)
    ensures r.relativePath == (if args.relativePath != "" then args.relativePath else c.relativePath)
    ensures r.description == (if args.description.Some? then args.description else c.description)
    ensures r.deleted == c.deleted && r.project == c.project
  {
    var relativePath := if args.relativePath != "" && c.relativePath != args.relativePath then args.relativePath else c.relativePath;
    var description := if args.description.Some? && c.description.value != args.description.value then args.description else c.description;
    var name := if args.name != "" && c.name != args.name then args.name else c.name;
    var version := if args.version != "" && c.version != args.version then args.version else c.version;
    c.(name := name, version := version, relativePath := relativePath, description := description)
  }

  /** updateComponentById as written: the duplicate check looks up the arguments' name and version. */
  function UpdateAsWritten(store: Store, id: string, args: ComponentArgs): (r: Result<Component, ComponentError>)
    ensures r.Success? ==> id != "" && id in store
    ensures r.Success? ==> (args.description.Some? ==> store[id].description.Some?) && r.value == Applied(store[id], args)
    ensures HasById(store, id) ==>
      var c := store[id];
      var modified := (args.name != "" && c.name != args.name) || (args.version != "" && c.version != args.version);
      && ((modified && HasByNameVersion(store, args.name, args.version, false, c.project)) <==>
          r == Failure(NameVersionExisted(args.name, args.version)))
      && (r.Success? <==> !(modified && HasByNameVersion(store, args.name, args.version, false, c.project))
                          && !(args.description.Some? && c.description.None?))
  {
    var c :- GetById(store, id);
    var modified := (args.name != "" && c.name != args.name) || (args.version != "" && c.version != args.version);
    if modified && HasByNameVersion(store, args.name, args.version, false, c.project) then
      Failure(NameVersionExisted(args.name, args.version))
    else if args.description.Some? && c.description.None? then Failure(NullDescription)
    else Success(Applied(c, args))
  }

  /**
    updateComponentById with the duplicate check on the name and version the
    component ends up with, so a field left out is taken from the component.
  */
  function Update(store: Store, id: string, args: ComponentArgs): (r: Result<Component, ComponentError>)
    ensures !(id != "" && id in store) ==> r == Failure(IdNotFound(id))
    ensures r.Success? ==> id in store && (args.description.Some? ==> store[id].description.Some?) && r.value == Applied(store[id], args)
    ensures r.Failure? && r.error.NameVersionExisted? ==>
      HasByNameVersion(store, r.error.name, r.error.version, false, store[id].project)
    ensures r == Failure(NullDescription) ==> store[id].description.None? && args.description.Some?
    ensures HasById(store, id) ==>
      var c := store[id];
      var name := if args.name != "" then args.name else c.name;
      var version := if args.version != "" then args.version else c.version;
      var clash := (name != c.name || version != c.version) && HasByNameVersion(store, name, version, false, c.project);
      && (clash ==> r == Failure(NameVersionExisted(name, version)))
      && (r.Success? <==> !clash && !(args.description.Some? && c.description.None?))
  {
    var c :- GetById(store, id);
    var name := if args.name != "" && c.name != args.name then args.name else c.name;
    var version := if args.version != "" && c.version != args.version then args.version else c.version;
    if (name != c.name || version != c.version) && HasByNameVersion(store, name, version, false, c.project) then
      Failure(NameVersionExisted(name, version))
    else if args.description.Some? && c.description.None? then Failure(NullDescription)
    else Success(Applied(c, args))
  }

  /** With both the name and the version given, the two checks agree. */
  lemma UpdateAgreesWhenBothGiven(store: Store, id: string, args: ComponentArgs)
    requires args.name != "" && args.version != ""
    ensures Update(store, id, args) == UpdateAsWritten(store, id, args)
  {
  }

  /** The corrected update keeps the store unique. */
  lemma UpdateKeepsUnique(store: Store, id: string, args: ComponentArgs)
    requires Unique(store) && Named(store) && Update(store, id, args).Success?
    ensures var c := Update(store, id, args).value;
      Unique(store[id := c]) && Named(store[id := c])
  {
    var old_ := store[id];
    var c := Update(store, id, args).value;
    var rest := store - {id};
    assert Unique(rest) && Named(rest);
    if !c.deleted {
      // Either the check on the new pair passed, or the pair is unchanged and
      // uniqueness rules out another live component holding it.
      forall other | other in rest ensures !Matches(rest[other], c.name, c.version, false, c.project) {
        if c.name != old_.name || c.version != old_.version {
          assert !HasByNameVersion(store, c.name, c.version, false, c.project);
        }
      }
    }
    AddKeepsUnique(rest, id, c);
    assert rest[id := c] == store[id := c];
  }

  /**
    The update as written lets a duplicate through: renaming b to a's name
    without giving the version checks the pair (x, "") and finds nothing.
  */
  lemma UpdateAsWrittenDuplicates()
    ensures var store := map["a" := Component("x", "1", "p", None, false, "P"), "b" := Component("y", "1", "q", None, false, "P")];
      var r := UpdateAsWritten(store, "b", ComponentArgs("x", "", "", None));
      && Unique(store) && Named(store)
      && r.Success? && !Unique(store["b" := r.value])
      && Update(store, "b", ComponentArgs("x", "", "", None)) == Failure(NameVersionExisted("x", "1"))
  {
    var a := Component("x", "1", "p", None, false, "P");
    var store := map["a" := a, "b" := Component("y", "1", "q", None, false, "P")];
    var args := ComponentArgs("x", "", "", None);
    var r := UpdateAsWritten(store, "b", args);
    assert !HasByNameVersion(store, "x", "", false, "P");
    assert r.value.name == "x" && r.value.version == "1";
    var after := store["b" := r.value];
    assert after["a"].name == after["b"].name && after["a"].version == after["b"].version;
    assert Matches(store["a"], "x", "1", false, "P");
    assert HasByNameVersion(store, "x", "1", false, "P");
  }

  // ---------------------------------------------------------------------
  // The service over the component repository
  // ---------------------------------------------------------------------

  class ComponentService {
    /** The component repository, by id. */
    var components: Store

    constructor()
      ensures components == map[]
    {
      components := map[];
    }

    /** saveComponentByProject, with `id` the id the new entity carries. */
    method Save(project: string, c: Component, id: string, formatPath: string -> string) returns (r: Result<Component, ComponentError>)
      modifies this
      ensures ValidateSave(old(components), project, c).Some? ==>
        r == Failure(ValidateSave(old(components), project, c).value) && components == old(components)
      ensures ValidateSave(old(components), project, c).None? ==>
        r == Success(Saved(c, project, formatPath)) && components == old(components)[id := r.value]
    {
      var check := ValidateSave(components, project, c);
      if check.Some? {
        return Failure(check.value);
      }
      var saved := c.(relativePath := formatPath(c.relativePath));
      saved := saved.(project := project);
      components := components[id := saved];
      return Success(saved);
    }

    /** getName: append (1), (2), ... until the name is free among the live components of this version. */
    method GetName(name: string, version: string, project: string) returns (r: string)
      ensures FreshName(components, name, version, project, r)
    {
      var index: nat := 0;
      r := name;
      while HasByNameVersion(components, r, version, false, project)
        invariant r == Suffixed(name, index)
        invariant AllTaken(components, name, version, project, index)
        decreases LongestName(components) + 1 - |r|
      {
        TakenIsShort(components, r, version, project);
        AllTakenNext(components, name, version, project, index);
        index := index + 1;
        r := r + "(" + NatToString(index) + ")";
      }
    }

    /** copyComponentById, with `freshId` the id the copy is saved under. */
    method Copy(id: string, freshId: string) returns (r: Result<Component, ComponentError>)
      modifies this
      ensures GetById(old(components), id).Failure? ==> r == Failure(IdNotFound(id)) && components == old(components)
      ensures GetById(old(components), id).Success? ==>
        var source := old(components)[id];
        && r.Success?
        && r.value == source.(name := r.value.name)
        && FreshName(old(components), source.name, source.version, source.project, r.value.name)
        && components == old(components)[freshId := r.value]
    {
      var found := GetById(components, id);
      if found.Failure? {
        return Failure(found.error);
      }
      var source := found.value;
      var name := GetName(source.name, source.version, source.project);
      var copy := source.(name := name);
      components := components[freshId := copy];
      return Success(copy);
    }

    /** deleteComponentById. */
    method Delete(id: string) returns (r: Result<Component, ComponentError>)
      modifies this
      ensures GetById(old(components), id).Failure? ==> r == Failure(IdNotFound(id)) && components == old(components)
      ensures GetById(old(components), id).Success? ==>
        components == WithDeleted(old(components), id, true) && r == Success(components[id])
    {
      var found := GetById(components, id);
      if found.Failure? {
        return Failure(found.error);
      }
      components := components[id := found.value.(deleted := true)];
      return Success(components[id]);
    }

    /** restoreComponentById. */
    method Restore(id: string) returns (r: Result<Component, ComponentError>)
      modifies this
      ensures GetById(old(components), id).Failure? ==> r == Failure(IdNotFound(id)) && components == old(components)
      ensures GetById(old(components), id).Success? ==>
        components == WithDeleted(old(components), id, false) && r == Success(components[id])
    {
      var found := GetById(components, id);
      if found.Failure? {
        return Failure(found.error);
      }
      components := components[id := found.value.(deleted := false)];
      return Success(components[id]);
    }

    /** cleanComponentById: the entity leaves the store and is handed back. */
    method Clean(id: string) returns (r: Result<Component, ComponentError>)
      modifies this
      ensures GetById(old(components), id).Failure? ==> r == Failure(IdNotFound(id)) && components == old(components)
      ensures GetById(old(components), id).Success? ==>
        r == Success(old(components)[id]) && components == old(components) - {id}
    {
      var found := GetById(components, id);
      if found.Failure? {
        return Failure(found.error);
      }
      components := components - {id};
      return found;
    }

    /** updateComponentById, with the duplicate check on the resulting name and version. */
    method UpdateById(id: string, args: ComponentArgs) returns (r: Result<Component, ComponentError>)
      modifies this
      ensures r == Update(old(components), id, args)
      ensures r.Success? ==> components == old(components)[id := r.value]
      ensures r.Failure? ==> components == old(components)
    {
      r := Update(components, id, args);
      if r.Success? {
        components := components[id := r.value];
      }
    }
  }
}
