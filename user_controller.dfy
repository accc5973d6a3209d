/** The role decision of `UserController.register`: a registration asks for a
    role by name, and only a request for ADMIN that carries the configured
    register code is granted it; everyone else becomes a READER. */
module UserController {
  import opened Common
  import opened UserService

  /** The registration request: `role` and `registerCode` may be null. */
  datatype RegistrationRequest = RegistrationRequest(
    username: string,
    password: string,
    name: string,
    email: string,
    phone: string,
    role: Option<string>,
    registerCode: Option<string>)

  /** Whether Java's `equalsIgnoreCase` takes the character `c` as the ASCII
      capital letter `u`: the letter itself, its lower-case form, and for `I`
      also the dotted capital I (U+0130) and the dotless small i (U+0131),
      which Java's case mapping sends to `i` and `I`. */
  predicate MatchesLetter(c: char, u: char)
    requires 'A' <= u <= 'Z'
  {
    || c == u
    || c as int == u as int + 32
    || (u == 'I' && (c as int == 0x130 || c as int == 0x131))
  }

  /** `"ADMIN".equalsIgnoreCase(role)`; false for a null role. */
  predicate IsAdminRole(role: Option<string>) {
    && role.Some?
    && |role.value| == 5
    && MatchesLetter(role.value[0], 'A')
    && MatchesLetter(role.value[1], 'D')
    && MatchesLetter(role.value[2], 'M')
    && MatchesLetter(role.value[3], 'I')
    && MatchesLetter(role.value[4], 'N')
  }

  /** `register`: the account to create, or the refusal of an ADMIN request
      whose register code is missing or wrong. The account is ACTIVE and
      carries the request's fields, with the password still raw (creating
      the account encodes it). */
  function Register(req: RegistrationRequest, adminRegisterCode: string): (r: Result<User>)
    ensures r.Ok? <==> !IsAdminRole(req.role) || req.registerCode == Some(adminRegisterCode)
    ensures r.Err? ==> r.error == InvalidRegisterCode
    ensures r.Ok? ==> (r.value.role == Admin <==> IsAdminRole(req.role))
    ensures r.Ok? ==>
      && r.value.status == Active
      && r.value.username == req.username && r.value.password == req.password
      && r.value.name == req.name && r.value.email == req.email && r.value.phone == req.phone
  {
    if IsAdminRole(req.role) then
      if req.registerCode.None? || req.registerCode.value != adminRegisterCode then Err(InvalidRegisterCode)
      else Ok(User(req.username, req.password, req.name, req.email, req.phone, Admin, Active))
    else
      Ok(User(req.username, req.password, req.name, req.email, req.phone, Reader, Active))
  }

  /** Which role names ask for ADMIN: any mix of cases of "ADMIN" does, a
      null role, "READER" or a longer word does not. */
  lemma AdminRoleSpellings()
    ensures IsAdminRole(Some("ADMIN")) && IsAdminRole(Some("admin")) && IsAdminRole(Some("aDmIn"))
    ensures !IsAdminRole(None) && !IsAdminRole(Some("READER")) && !IsAdminRole(Some("ADMINS"))
    ensures !IsAdminRole(Some("")) && !IsAdminRole(Some("ADMlN"))
  {
  }

  /** An ADMIN account comes only from a request that carries the configured
      code, and a wrong code never downgrades an ADMIN request to READER. */
  lemma AdminNeedsTheCode(req: RegistrationRequest, adminRegisterCode: string, code: string)
    requires IsAdminRole(req.role) && code != adminRegisterCode
    ensures Register(req.(registerCode := Some(code)), adminRegisterCode) == Err(InvalidRegisterCode)
    ensures Register(req.(registerCode := None), adminRegisterCode) == Err(InvalidRegisterCode)
    ensures Register(req.(registerCode := Some(adminRegisterCode)), adminRegisterCode).value.role == Admin
  {
  }
}
