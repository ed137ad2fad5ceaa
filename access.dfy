/**
 * Access rules: the `has_role` template filter
 * (labs/templatetags/role_tags.py) and the password check of
 * `UserRoleForm.clean` (labs/forms.py).
 */
module Access {
  import opened Strings

  // ---------------------------------------------------------------------
  // has_role
  // ---------------------------------------------------------------------

  /**
   * What reading `user.role` gives: no related `UserRole` object (so
   * `hasattr` is false), an object carrying a role name, or a lookup that
   * raises something other than `AttributeError`.
   */
  datatype RoleLink = NoRoleObject | RoleObject(role: string) | LookupFails

  /** The parts of a request user the filter looks at. */
  datatype User = User(isAnonymous: bool, isStaff: bool, link: RoleLink)

  /**
   * `user|has_role:role_name`: anonymous users have no role, staff users
   * have every role, and anyone else has exactly the role their role object
   * names; a missing object or a failed lookup means no role.
   */
  function HasRole(user: User, roleName: string): (r: bool)
    ensures user.isAnonymous ==> !r
    ensures !user.isAnonymous && user.isStaff ==> r
    ensures !user.isAnonymous && !user.isStaff ==> (r <==> user.link == RoleObject(roleName))
  {
    if user.isAnonymous then false
    else if user.isStaff then true
    else match user.link
      case NoRoleObject => false
      case RoleObject(role) => role == roleName
      case LookupFails => false
  }

  /**
   * A user who is not staff holds at most one role, and holds one only
   * through a role object that was read successfully.
   */
  lemma HasRoleAtMostOne(user: User, a: string, b: string)
    requires !user.isStaff
    ensures HasRole(user, a) && HasRole(user, b) ==> a == b
    ensures HasRole(user, a) ==> !user.isAnonymous && user.link.RoleObject? && user.link.role == a
  {
    if HasRole(user, a) {
      match user.link
      case RoleObject(role) =>
      case NoRoleObject =>
      case LookupFails =>
    }
  }

  // ---------------------------------------------------------------------
  // UserRoleForm.clean
  // ---------------------------------------------------------------------

  /** The form after field validation: the cleaned values and the errors per field. */
  datatype FormState = FormState(cleaned: map<string, string>, errors: map<string, seq<string>>)

  const Password1: string := "password1"
  const Password2: string := "password2"
  const MismatchMessage: string := "Passwords don't match"

  /** Python truthiness of an optional string: present and non-empty. */
  predicate Truthy(v: Option<string>) {
    v.Some? && v.value != ""
  }

  /** `password1 and password1 != password2`. */
  predicate PasswordsMismatch(cleaned: map<string, string>) {
    Truthy(Get(cleaned, Password1)) && Get(cleaned, Password1) != Get(cleaned, Password2)
  }

  /**
   * Django's `add_error(field, message)`: the message is appended to the
   * field's error list and the field leaves the cleaned data.
   */
  function AddError(form: FormState, field: string, message: string): (r: FormState)
    ensures field in r.errors && r.errors[field] == (if field in form.errors then form.errors[field] else []) + [message]
    ensures forall f :: f != field ==> (f in r.errors <==> f in form.errors)
    ensures forall f :: f != field && f in form.errors ==> r.errors[f] == form.errors[f]
    ensures field !in r.cleaned
    ensures forall f :: f != field ==> (f in r.cleaned <==> f in form.cleaned)
    ensures forall f :: f != field && f in form.cleaned ==> r.cleaned[f] == form.cleaned[f]
  {
    var before := if field in form.errors then form.errors[field] else [];
    FormState(form.cleaned - {field}, form.errors[field := before + [message]])
  }

  /**
   * `UserRoleForm.clean`: the form gets a new error exactly when the first
   * password is non-empty and differs from the confirmation; that error
   * says the passwords do not match and goes on the confirmation field
   * only; a blank first password never produces one.
   */
  function Clean(form: FormState): (r: FormState)
    ensures r.errors != form.errors <==> PasswordsMismatch(form.cleaned)
    ensures PasswordsMismatch(form.cleaned) ==>
      Password2 in r.errors && |r.errors[Password2]| > 0 && r.errors[Password2][|r.errors[Password2]| - 1] == MismatchMessage
    ensures forall f :: f != Password2 ==> (f in r.errors <==> f in form.errors)
    ensures forall f :: f != Password2 && f in form.errors ==> r.errors[f] == form.errors[f]
    ensures !Truthy(Get(form.cleaned, Password1)) ==> r == form
  {
    if PasswordsMismatch(form.cleaned) then
      var r := AddError(form, Password2, MismatchMessage);
      assert |r.errors[Password2]| != |if Password2 in form.errors then form.errors[Password2] else []|;
      r
    else form
  }

  /**
   * The cleaned data `clean` returns: unchanged when the passwords agree,
   * and without the confirmation field (which `add_error` removes) when
   * they do not; every other field keeps its value either way.
   */
  lemma CleanKeepsData(form: FormState)
    ensures !PasswordsMismatch(form.cleaned) ==> Clean(form).cleaned == form.cleaned
    ensures PasswordsMismatch(form.cleaned) ==> Clean(form).cleaned == form.cleaned - {Password2}
    ensures Password1 in form.cleaned ==> Password1 in Clean(form).cleaned && Clean(form).cleaned[Password1] == form.cleaned[Password1]
  {
  }
}
