/**
  ProjectService: a user's projects, kept in a store keyed by id. A
  project's name is unique among the projects of its user; saving and
  renaming check it.
*/
module Projects {
  import opened Wrappers

  datatype Project = Project(name: string, description: Option<string>, user: string)

  /** The exceptions the service throws, by the message they carry. */
  datatype ProjectError =
    | ProjectNameArgsNotFound
    | ProjectNameExisted(name: string)
    | ProjectIdNotFound(id: string)
    | NullDescription          // the stored description is null and compared with `equals`

  type Store = map<string, Project>

  /** The arguments of updateProjectById; "" is a name left out, None a description left out. */
  datatype ProjectArgs = ProjectArgs(name: string, description: Option<string>)

  // ---------------------------------------------------------------------
  // Lookups
  // ---------------------------------------------------------------------

  predicate OwnedAs(p: Project, name: string, user: string) {
    p.name == name && p.user == user
  }

  /** hasProjectByNameAndUser. */
  function HasByNameAndUser(store: Store, name: string, user: string): (b: bool)
    ensures name == "" ==> !b
    ensures b <==> name != "" && exists id :: id in store && store[id].name == name && store[id].user == user
  {
    name != "" && exists id :: id in store && OwnedAs(store[id], name, user)
  }

  /** hasProjectById. */
  predicate HasById(store: Store, id: string) {
    id != "" && id in store
  }

  /** getProjectById: the project, or the not-found error for an empty or unknown id. */
  function GetById(store: Store, id: string): (r: Result<Project, ProjectError>)
    ensures r.Success? <==> id != "" && id in store
    ensures r.Success? ==> r.value == store[id]
    ensures r.Failure? ==> r.error == ProjectIdNotFound(id)
  {
    if HasById(store, id) then Success(store[id]) else Failure(ProjectIdNotFound(id))
  }

  // ---------------------------------------------------------------------
  // The invariant: names are unique per user
  // ---------------------------------------------------------------------

  predicate Unique(store: Store) {
    forall a, b :: (a in store && b in store && a != b && store[a].user == store[b].user) ==> store[a].name != store[b].name
  }

  predicate Named(store: Store) {
    forall id :: id in store ==> store[id].name != ""
  }

  /** Adding, under a new id, a project whose name its user does not hold keeps names unique. */
  lemma AddKeepsUnique(store: Store, id: string, p: Project)
    requires Unique(store) && Named(store) && id !in store
    requires p.name != "" && !HasByNameAndUser(store, p.name, p.user)
    ensures Unique(store[id := p]) && Named(store[id := p])
  {
    var s := store[id := p];
    forall a, b | a in s && b in s && a != b && s[a].user == s[b].user ensures s[a].name != s[b].name {
      if a == id {
        assert !OwnedAs(store[b], p.name, p.user);
      } else if b == id {
        assert !OwnedAs(store[a], p.name, p.user);
      }
    }
  }

  // ---------------------------------------------------------------------
  // saveProjectByUser
  // ---------------------------------------------------------------------

  /** saveProjectByUser: the project with its user set, or the first check that fails. */
  function Save(store: Store, p: Project, user: string): (r: Result<Project, ProjectError>)
    ensures p.name == "" ==> r == Failure(ProjectNameArgsNotFound)
    ensures p.name != "" && HasByNameAndUser(store, p.name, user) ==> r == Failure(ProjectNameExisted(p.name))
    ensures r.Success? <==> p.name != "" && !HasByNameAndUser(store, p.name, user)
    ensures r.Success? ==> r.value == p.(user := user)
  {
    if p.name == "" then Failure(ProjectNameArgsNotFound)
    else if HasByNameAndUser(store, p.name, user) then Failure(ProjectNameExisted(p.name))
    else Success(p.(user := user))
  }

  /** A save that passes the checks, under a new id, keeps names unique per user. */
  lemma SaveKeepsUnique(store: Store, p: Project, user: string, id: string)
    requires Unique(store) && Named(store) && id !in store && Save(store, p, user).Success?
    ensures Unique(store[id := Save(store, p, user).value]) && Named(store[id := Save(store, p, user).value])
  {
    AddKeepsUnique(store, id, p.(user := user));
  }

  // ---------------------------------------------------------------------
  // updateProjectById
  // ---------------------------------------------------------------------

  /** updateProjectById: the project after the given fields are changed, or the exception. */
  function Update(store: Store, id: string, args: ProjectArgs): (r: Result<Project, ProjectError>)
    ensures !(id != "" && id in store) ==> r == Failure(ProjectIdNotFound(id))
    ensures r.Success? ==>
      && id in store
      && r.value.name == (if args.name != "" then args.name else store[id].name)
      && r.value.description == (if args.description.Some? then args.description else store[id].description)
      && r.value.user == store[id].user
    ensures r.Failure? && r.error.ProjectNameExisted? ==>
      r.error.name != store[id].name && HasByNameAndUser(store, r.error.name, store[id].user)
    ensures r == Failure(NullDescription) ==> store[id].description.None? && args.description.Some?
    ensures HasById(store, id) ==>
      var p := store[id];
      var clash := args.name != "" && args.name != p.name && HasByNameAndUser(store, args.name, p.user);
      && (clash ==> r == Failure(ProjectNameExisted(args.name)))
      && (r.Success? <==> !clash && !(args.description.Some? && p.description.None?))
  {
    var p :- GetById(store, id);
    var renamed := args.name != "" && p.name != args.name;
    if renamed && HasByNameAndUser(store, args.name, p.user) then Failure(ProjectNameExisted(args.name))
    else
      var p1 := if renamed then p.(name := args.name) else p;
      if args.description.Some? && p.description.None? then Failure(NullDescription)
      else if args.description.Some? && p.description.value != args.description.value then Success(p1.(description := args.description))
      else Success(p1)
  }

  /** An update keeps names unique per user. */
  lemma UpdateKeepsUnique(store: Store, id: string, args: ProjectArgs)
    requires Unique(store) && Named(store) && Update(store, id, args).Success?
    ensures var p := Update(store, id, args).value;
      Unique(store[id := p]) && Named(store[id := p])
  {
    var before := store[id];
    var p := Update(store, id, args).value;
    var rest := store - {id};
    assert Unique(rest) && Named(rest);
    forall other | other in rest ensures !OwnedAs(rest[other], p.name, p.user) {
      if p.name != before.name {
        assert !HasByNameAndUser(store, p.name, p.user);
      }
    }
    AddKeepsUnique(rest, id, p);
    assert rest[id := p] == store[id := p];
  }

  // ---------------------------------------------------------------------
  // The service over the project repository
  // ---------------------------------------------------------------------

  class ProjectService {
    /** The project repository, by id. */
    var projects: Store

    constructor()
      ensures projects == map[]
    {
      projects := map[];
    }

    /** saveProjectByUser, with `id` the id the new entity carries. */
    method SaveByUser(p: Project, user: string, id: string) returns (r: Result<Project, ProjectError>)
      modifies this
      ensures r == Save(old(projects), p, user)
      ensures r.Success? ==> projects == old(projects)[id := r.value]
      ensures r.Failure? ==> projects == old(projects)
    {
      r := Save(projects, p, user);
      if r.Success? {
        projects := projects[id := r.value];
      }
    }

    /** updateProjectById. */
    method UpdateById(id: string, args: ProjectArgs) returns (r: Result<Project, ProjectError>)
      modifies this
      ensures r == Update(old(projects), id, args)
      ensures r.Success? ==> projects == old(projects)[id := r.value]
      ensures r.Failure? ==> projects == old(projects)
    {
      r := Update(projects, id, args);
      if r.Success? {
        projects := projects[id := r.value];
      }
    }

    /** deleteProjectById: the project leaves the store and is handed back. */
    method DeleteById(id: string) returns (r: Result<Project, ProjectError>)
      modifies this
      ensures r == GetById(old(projects), id)
      ensures r.Success? ==> projects == old(projects) - {id} && id !in projects
      ensures r.Failure? ==> projects == old(projects)
    {
      r := GetById(projects, id);
      if r.Success? {
        projects := projects - {id};
      }
    }
  }
}
