/**
 * The role set-up script (setup_roles.py): the three role groups and their
 * permission sets, and the one-off creation of an administrator. Django's
 * auth tables are fields of an `AuthStore`: the permission table, which
 * the script only reads, the group table keyed by group name, the users
 * with their superuser flag, and the `UserRole` rows keyed by user name.
 */
module RoleSetup {
  import opened Strings

  // ---------------------------------------------------------------------
  // Permissions and the sets the script grants
  // ---------------------------------------------------------------------

  /** A content type: the app and the model a permission is about. */
  datatype ContentType = ContentType(app: string, model: string)

  /** The four default actions Django creates for a model, plus any custom one. */
  datatype Action = Add | Change | Delete | View | Custom(name: string)

  /** A permission row; its codename is the action followed by the model name. */
  datatype Permission = Permission(action: Action, ct: ContentType)

  function ActionPrefix(a: Action): string {
    match a
    case Add => "add_"
    case Change => "change_"
    case Delete => "delete_"
    case View => "view_"
    case Custom(name) => name
  }

  function Codename(p: Permission): string {
    ActionPrefix(p.action) + p.ct.model
  }

  function LabType(model: string): ContentType {
    ContentType("labs", model)
  }

  const StudentType: ContentType := LabType("student")
  const LabModelType: ContentType := LabType("lab")
  const PartType: ContentType := LabType("part")
  const SignoffType: ContentType := LabType("signoff")
  const QualityType: ContentType := LabType("qualitycriteria")

  /** The content types whose permissions all go to instructors, in the order the script visits them. */
  const InstructorTypes: seq<ContentType> := [StudentType, LabModelType, PartType, SignoffType, QualityType]

  /** The nine permissions the script looks up for teaching assistants, in its order. */
  const TaList: seq<Permission> := [
    Permission(Add, SignoffType),
    Permission(Change, SignoffType),
    Permission(View, SignoffType),
    Permission(Add, QualityType),
    Permission(Change, QualityType),
    Permission(View, QualityType),
    Permission(View, StudentType),
    Permission(View, LabModelType),
    Permission(View, PartType)
  ]

  /** The three permissions the script looks up for students, in its order. */
  const StudentList: seq<Permission> := [
    Permission(View, LabModelType),
    Permission(View, PartType),
    Permission(View, SignoffType)
  ]

  const InstructorGroup: string := "instructor"
  const TaGroup: string := "ta"
  const StudentGroup: string := "student"

  /** The permissions of the table whose content type is among `types`. */
  function PermissionsOfTypes(permissions: set<Permission>, types: seq<ContentType>): (r: set<Permission>)
    ensures forall p :: p in r <==> p in permissions && p.ct in types
  {
    set p | p in permissions && p.ct in types
  }

  lemma PermissionsOfNoTypes(permissions: set<Permission>)
    ensures PermissionsOfTypes(permissions, []) == {}
  {
  }

  lemma PermissionsOfTypesSnoc(permissions: set<Permission>, types: seq<ContentType>, ct: ContentType)
    ensures PermissionsOfTypes(permissions, types + [ct]) ==
      PermissionsOfTypes(permissions, types) + PermissionsOfTypes(permissions, [ct])
  {
  }

  /** Every permission of the five lab models: the instructor's set. */
  function InstructorSet(permissions: set<Permission>): set<Permission> {
    PermissionsOfTypes(permissions, InstructorTypes)
  }

  function TaSet(): set<Permission> {
    set i | 0 <= i < |TaList| :: TaList[i]
  }

  function StudentSet(): set<Permission> {
    set i | 0 <= i < |StudentList| :: StudentList[i]
  }

  /** `Permission.objects.get` finds every listed permission. */
  predicate AllPresent(permissions: set<Permission>, list: seq<Permission>) {
    forall i :: 0 <= i < |list| ==> list[i] in permissions
  }

  lemma GroupNamesDistinct()
    ensures InstructorGroup != TaGroup && TaGroup != StudentGroup && StudentGroup != InstructorGroup
  {
    assert |InstructorGroup| == 10 && |TaGroup| == 2 && |StudentGroup| == 7;
  }

  /** Clearing three distinct entries and then setting them is setting them. */
  lemma UpdateChain<K, V>(g: map<K, set<V>>, a: K, b: K, c: K, x: set<V>, y: set<V>, z: set<V>)
    requires a != b && b != c && c != a
    ensures g[a := {}][b := {}][c := {}][a := x][b := y][c := z] == g[a := x][b := y][c := z]
    ensures g[a := {}][b := {}][c := {}][a := x] == g[a := x][b := {}][c := {}]
  {
  }

  /**
   * The group table after the script: the three groups exist and hold
   * their sets. When a teaching-assistant permission is missing, the lookup
   * raises after the instructor group was filled and the other two were
   * cleared, and the script stops there.
   */
  function AfterSetup(groups: map<string, set<Permission>>, permissions: set<Permission>): map<string, set<Permission>> {
    var ok := AllPresent(permissions, TaList);
    groups[InstructorGroup := InstructorSet(permissions)]
          [TaGroup := if ok then TaSet() else {}]
          [StudentGroup := if ok then StudentSet() else {}]
  }

  /**
   * The teaching-assistant set has nine distinct permissions, none of them
   * a delete permission; the student set has three, all views.
   */
  lemma RoleSetSizes()
    ensures |TaSet()| == 9 && forall p :: p in TaSet() ==> p.action != Delete
    ensures |StudentSet()| == 3 && forall p :: p in StudentSet() ==> p.action == View
  {
    TaSetSize();
    var s := StudentSet();
    assert s == {StudentList[0], StudentList[1], StudentList[2]};
  }

  lemma TaSetSize()
    ensures |TaSet()| == 9
  {
    var t := TaSet();
    assert t == {TaList[0], TaList[1], TaList[2], TaList[3], TaList[4], TaList[5], TaList[6], TaList[7], TaList[8]};
  }

  /**
   * Student permissions are teaching-assistant permissions, and those are
   * instructor permissions whenever the table holds them.
   */
  lemma RoleSetsNested(permissions: set<Permission>)
    ensures StudentSet() <= TaSet()
    ensures AllPresent(permissions, TaList) ==> TaSet() <= InstructorSet(permissions)
  {
    assert StudentList[0] == TaList[7] && StudentList[1] == TaList[8] && StudentList[2] == TaList[2];
    forall p | p in TaSet()
      ensures p.ct in InstructorTypes
    {
      var i :| 0 <= i < |TaList| && TaList[i] == p;
    }
  }

  /** Whenever the teaching-assistant lookups succeed, so do the student ones. */
  lemma StudentListPresent(permissions: set<Permission>)
    ensures AllPresent(permissions, TaList) ==> AllPresent(permissions, StudentList)
  {
    assert StudentList[0] == TaList[7] && StudentList[1] == TaList[8] && StudentList[2] == TaList[2];
  }

  /** Running the script again leaves the groups as the first run left them. */
  lemma AfterSetupIdempotent(groups: map<string, set<Permission>>, permissions: set<Permission>)
    ensures AfterSetup(AfterSetup(groups, permissions), permissions) == AfterSetup(groups, permissions)
  {
  }

  /** The group sets after a run depend on the permission table alone, not on what the groups held. */
  lemma AfterSetupForgets(g1: map<string, set<Permission>>, g2: map<string, set<Permission>>, permissions: set<Permission>)
    ensures AfterSetup(g1, permissions)[InstructorGroup] == AfterSetup(g2, permissions)[InstructorGroup]
    ensures AfterSetup(g1, permissions)[TaGroup] == AfterSetup(g2, permissions)[TaGroup]
    ensures AfterSetup(g1, permissions)[StudentGroup] == AfterSetup(g2, permissions)[StudentGroup]
  {
  }

  /**
   * `for perm in Permission.objects.filter(content_type=ct): group.permissions.add(perm)`,
   * on the group's permission set `held`.
   */
  method AddPermissionsOfType(permissions: set<Permission>, held: set<Permission>, ct: ContentType)
    returns (r: set<Permission>)
    ensures r == held + PermissionsOfTypes(permissions, [ct])
  {
    var todo := PermissionsOfTypes(permissions, [ct]);
    r := held;
    while todo != {}
      invariant r + todo == held + PermissionsOfTypes(permissions, [ct])
      invariant held <= r
      decreases |todo|
    {
      var p :| p in todo;
      r := r + {p};
      todo := todo - {p};
    }
  }

  // ---------------------------------------------------------------------
  // The store and the script's two steps
  // ---------------------------------------------------------------------

  const AdminName: string := "admin"
  const InstructorRole: string := "instructor"

  /** The result of `create_superuser_if_needed`. */
  datatype SuperuserOutcome = AlreadyExists | Created | NameTaken

  /** `User.objects.filter(is_superuser=True).exists()`. */
  predicate HasSuperuser(users: map<string, bool>) {
    exists u :: u in users && users[u]
  }

  class AuthStore {
    const permissions: set<Permission>
    var groups: map<string, set<Permission>>
    /** User name to superuser flag. */
    var users: map<string, bool>
    /** `UserRole` rows: user name to role name. */
    var roles: map<string, string>

    /** Every role row belongs to an existing user. */
    ghost predicate Valid()
      reads this
    {
      roles.Keys <= users.Keys
    }

    constructor (permissions: set<Permission>, groups: map<string, set<Permission>>,
                 users: map<string, bool>, roles: map<string, string>)
      requires roles.Keys <= users.Keys
      ensures Valid()
      ensures this.permissions == permissions && this.groups == groups
      ensures this.users == users && this.roles == roles
    {
      this.permissions := permissions;
      this.groups := groups;
      this.users := users;
      this.roles := roles;
    }

    /** `group.permissions.add(perm)` for each permission of a list already looked up. */
    method GrantList(name: string, list: seq<Permission>)
      requires name in groups
      modifies this
      ensures groups == old(groups)[name := old(groups)[name] + set i | 0 <= i < |list| :: list[i]]
      ensures users == old(users) && roles == old(roles)
    {
      var held := groups[name];
      for j := 0 to |list|
        invariant held == old(groups)[name] + set i | 0 <= i < j :: list[i]
        invariant groups == old(groups) && users == old(users) && roles == old(roles)
      {
        held := held + {list[j]};
        assert (set i | 0 <= i < j + 1 :: list[i]) == (set i | 0 <= i < j :: list[i]) + {list[j]};
      }
      groups := groups[name := held];
    }

    /** The lookups `Permission.objects.get(...)` of a list: false when one of them would raise. */
    method LookUpAll(list: seq<Permission>) returns (found: bool)
      ensures found <==> AllPresent(permissions, list)
    {
      for j := 0 to |list|
        invariant forall i :: 0 <= i < j ==> list[i] in permissions
      {
        if list[j] !in permissions {
          return false;
        }
      }
      return true;
    }

    /**
     * The loop over the content types: every permission of each type is
     * added to the group.
     */
    method GrantTypes(name: string, types: seq<ContentType>)
      requires name in groups
      modifies this
      ensures groups == old(groups)[name := old(groups)[name] + PermissionsOfTypes(permissions, types)]
      ensures users == old(users) && roles == old(roles)
    {
      var held := groups[name];
      PermissionsOfNoTypes(permissions);
      for i := 0 to |types|
        invariant held == old(groups)[name] + PermissionsOfTypes(permissions, types[..i])
        invariant groups == old(groups) && users == old(users) && roles == old(roles)
      {
        held := AddPermissionsOfType(permissions, held, types[i]);
        PermissionsOfTypesSnoc(permissions, types[..i], types[i]);
        assert types[..i + 1] == types[..i] + [types[i]];
      }
      assert types[..|types|] == types;
      groups := groups[name := held];
    }

    /**
     * `setup_role_permissions`: get or create the three groups, clear them,
     * give instructors every permission of the five lab models, then
     * teaching assistants and students their listed permissions. The
     * result is `AfterSetup` of the old groups; `ok` is false when a
     * teaching-assistant permission is missing and the script stops.
     */
    method SetupRolePermissions() returns (ok: bool)
      modifies this
      ensures ok <==> AllPresent(permissions, TaList)
      ensures groups == AfterSetup(old(groups), permissions)
      ensures users == old(users) && roles == old(roles)
    {
      GroupNamesDistinct();
      // `get_or_create` then `permissions.clear()`: each group exists and is empty.
      groups := groups[InstructorGroup := {}][TaGroup := {}][StudentGroup := {}];
      ghost var cleared := groups;
      GrantTypes(InstructorGroup, InstructorTypes);
      assert {} + InstructorSet(permissions) == InstructorSet(permissions);
      ok := LookUpAll(TaList);
      if !ok {
        UpdateChain(old(groups), InstructorGroup, TaGroup, StudentGroup, InstructorSet(permissions), {}, {});
        return;
      }
      GrantList(TaGroup, TaList);
      var studentOk := LookUpAll(StudentList);
      StudentListPresent(permissions);
      GrantList(StudentGroup, StudentList);
      assert {} + TaSet() == TaSet() && {} + StudentSet() == StudentSet();
      assert groups == cleared[InstructorGroup := InstructorSet(permissions)][TaGroup := TaSet()][StudentGroup := StudentSet()];
      UpdateChain(old(groups), InstructorGroup, TaGroup, StudentGroup, InstructorSet(permissions), TaSet(), StudentSet());
    }

    /**
     * `create_superuser_if_needed`: when no superuser exists, create the
     * superuser `admin` and give it the instructor role; when one exists,
     * change nothing. Creating the user fails, and nothing changes, when a
     * user named `admin` already exists without being a superuser.
     */
    method CreateSuperuserIfNeeded() returns (outcome: SuperuserOutcome)
      requires Valid()
      modifies this
      ensures Valid()
      ensures old(HasSuperuser(users)) ==> outcome == AlreadyExists
      ensures !old(HasSuperuser(users)) && AdminName in old(users) ==> outcome == NameTaken
      ensures !old(HasSuperuser(users)) && AdminName !in old(users) ==> outcome == Created
      ensures outcome == Created ==> users == old(users)[AdminName := true] && roles == old(roles)[AdminName := InstructorRole]
      ensures outcome != Created ==> users == old(users) && roles == old(roles)
      ensures outcome != NameTaken ==> HasSuperuser(users)
      ensures groups == old(groups)
    {
      if HasSuperuser(users) {
        return AlreadyExists;
      }
      if AdminName in users {
        return NameTaken;
      }
      users := users[AdminName := true];
      roles := roles[AdminName := InstructorRole];
      assert users[AdminName];
      return Created;
    }
  }

  /**
   * The script's entry point: set up the groups, then create the superuser.
   * A missing teaching-assistant permission raises out of the set-up, so
   * the superuser step never runs and `completed` is false.
   */
  method RunScript(store: AuthStore) returns (completed: bool)
    requires store.Valid()
    modifies store
    ensures store.Valid()
    ensures completed <==> AllPresent(store.permissions, TaList)
    ensures store.groups == AfterSetup(old(store.groups), store.permissions)
    ensures !completed ==> store.users == old(store.users) && store.roles == old(store.roles)
    ensures completed && (old(HasSuperuser(store.users)) || AdminName in old(store.users)) ==>
      store.users == old(store.users) && store.roles == old(store.roles)
    ensures completed && !old(HasSuperuser(store.users)) && AdminName !in old(store.users) ==>
      store.users == old(store.users)[AdminName := true] && store.roles == old(store.roles)[AdminName := InstructorRole]
  {
    completed := store.SetupRolePermissions();
    if completed {
      var outcome := store.CreateSuperuserIfNeeded();
    }
  }

  /**
   * Running the whole script twice: the second set-up gives the groups the
   * first one gave, and the second run creates no second superuser. When a
   * teaching-assistant permission is missing, neither run creates a user.
   */
  method RunScriptTwice(store: AuthStore)
    requires store.Valid()
    modifies store
    ensures store.groups == AfterSetup(old(store.groups), store.permissions)
    ensures !AllPresent(store.permissions, TaList) ==> store.users == old(store.users)
    ensures old(HasSuperuser(store.users)) || AdminName in old(store.users) ==> store.users == old(store.users)
    ensures AllPresent(store.permissions, TaList) && !old(HasSuperuser(store.users)) && AdminName !in old(store.users) ==>
      store.users == old(store.users)[AdminName := true]
  {
    var first := RunScript(store);
    ghost var middle := store.users;
    var second := RunScript(store);
    AfterSetupIdempotent(old(store.groups), store.permissions);
    if first && !old(HasSuperuser(store.users)) && AdminName !in old(store.users) {
      assert middle[AdminName];
    }
  }
}
