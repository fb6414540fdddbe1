/** Model of `UserAccountManager` in backend/users/models.py: the flags a new
    account gets, the validation done before it is built, and the email it
    is stored under. Building, hashing the password and saving are the
    framework's; a created account is returned as a value. */
module UserModels {
  import opened Text

  /** A keyword argument's value: Python's `True`/`False`, a string, or
      anything else (compared by its text). */
  datatype PyValue = PyBool(b: bool) | PyStr(s: string) | PyOther(text: string)

  type Fields = map<string, PyValue>

  const IsStaff := "is_staff"
  const IsSuperuser := "is_superuser"
  const IsActive := "is_active"

  const NoEmailMessage := "Users must have an email address"
  const NotStaffMessage := "Superuser must have is_staff=True"

  /** `password` is what `set_password` receives; hashing is not modelled. */
  datatype User = User(email: string, fields: Fields, password: Option<string>)

  datatype CreateResult = Created(user: User) | ValueError(message: string)

  /** Keyword arguments named `email` or `password` bind to the parameters of
      the same name, so they never reach `extra_fields`. */
  predicate ExtraOnly(extra: Fields) {
    "email" !in extra && "password" !in extra
  }

  /** `_create_user(email, password, **extra_fields)`; `normalize` is the
      manager's `normalize_email`. */
  method CreateAccount(normalize: string -> string, email: Option<string>, password: Option<string>, extra: Fields)
    returns (result: CreateResult)
    requires ExtraOnly(extra)
    ensures result.ValueError? <==> !Truthy(email)
    ensures result.ValueError? ==> result.message == NoEmailMessage
    ensures result.Created? ==>
      && result.user.email == Lower(normalize(email.value))
      && IsLowerCase(result.user.email)
      && result.user.fields == extra
      && result.user.password == password
  {
    if !Truthy(email) {
      return ValueError(NoEmailMessage);
    }
    var address := normalize(email.value);
    address := Lower(address);
    LowerIsLowerCase(normalize(email.value));
    return Created(User(address, extra, password));
  }

  /** `create_user`: the three flags default to `False` (new accounts wait
      for approval) and values the caller gave are kept. */
  method CreateUser(normalize: string -> string, email: Option<string>, password: Option<string>, extra: Fields)
    returns (result: CreateResult)
    requires ExtraOnly(extra)
    ensures result.ValueError? <==> !Truthy(email)
    ensures result.Created? ==>
      && result.user.email == Lower(normalize(email.value))
      && result.user.password == password
      && result.user.fields.Keys == extra.Keys + {IsStaff, IsSuperuser, IsActive}
      && (forall k :: k in extra ==> result.user.fields[k] == extra[k])
      && (forall k :: k in {IsStaff, IsSuperuser, IsActive} && k !in extra ==>
            result.user.fields[k] == PyBool(false))
  {
    var fields := extra;
    if IsStaff !in fields { fields := fields[IsStaff := PyBool(false)]; }
    if IsSuperuser !in fields { fields := fields[IsSuperuser := PyBool(false)]; }
    if IsActive !in fields { fields := fields[IsActive := PyBool(false)]; }
    result := CreateAccount(normalize, email, password, fields);
  }

  /** `extra_fields.get("is_staff") is not True` once the defaults are in. */
  predicate StaffRefused(extra: Fields) {
    IsStaff in extra && extra[IsStaff] != PyBool(true)
  }

  /** `create_superuser`: the three flags default to `True`, values the caller
      gave are kept, and anything but `is_staff=True` is refused before the
      email is looked at; `is_superuser` is not checked. */
  method CreateSuperuser(normalize: string -> string, email: Option<string>, password: Option<string>, extra: Fields)
    returns (result: CreateResult)
    requires ExtraOnly(extra)
    ensures StaffRefused(extra) ==> result == ValueError(NotStaffMessage)
    ensures !StaffRefused(extra) && !Truthy(email) ==> result == ValueError(NoEmailMessage)
    ensures result.Created? <==> !StaffRefused(extra) && Truthy(email)
    ensures result.Created? ==>
      && result.user.email == Lower(normalize(email.value))
      && result.user.password == password
      && result.user.fields.Keys == extra.Keys + {IsStaff, IsSuperuser, IsActive}
      && result.user.fields[IsStaff] == PyBool(true)
      && (forall k :: k in extra ==> result.user.fields[k] == extra[k])
      && (forall k :: k in {IsStaff, IsSuperuser, IsActive} && k !in extra ==>
            result.user.fields[k] == PyBool(true))
  {
    var fields := extra;
    if IsStaff !in fields { fields := fields[IsStaff := PyBool(true)]; }
    if IsSuperuser !in fields { fields := fields[IsSuperuser := PyBool(true)]; }
    if IsActive !in fields { fields := fields[IsActive := PyBool(true)]; }
    if fields[IsStaff] != PyBool(true) {
      return ValueError(NotStaffMessage);
    }
    result := CreateAccount(normalize, email, password, fields);
  }
}
