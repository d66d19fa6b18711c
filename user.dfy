/** The User entity (entity/User.java): the account record, its Role enum and
    the UserDetails view Spring Security reads from it. */
module UserEntity {
  import opened Wrappers

  datatype Role = USER | ADMIN

  /** Role.name(), the string the role column stores (@Enumerated(STRING)). */
  function RoleName(r: Role): (s: string)
    ensures RoleValueOf(s) == Some(r)
  {
    match r
    case USER => "USER"
    case ADMIN => "ADMIN"
  }

  /** Role.valueOf: reading the stored column back; any other string is not a role. */
  function RoleValueOf(s: string): Option<Role> {
    if s == "USER" then Some(USER)
    else if s == "ADMIN" then Some(ADMIN)
    else None
  }

  /** A row of the `users` table. Timestamps are left out. */
  datatype User = User(
    id: int,
    username: string,
    email: string,
    password: string,
    fullName: string,
    role: Role,
    isEnabled: bool,
    isAccountNonExpired: bool,
    isCredentialsNonExpired: bool,
    isAccountNonLocked: bool)
  {
    /** The UserDetails predicates: each reports its stored flag. */
    predicate IsEnabled() { isEnabled }
    predicate IsAccountNonExpired() { isAccountNonExpired }
    predicate IsCredentialsNonExpired() { isCredentialsNonExpired }
    predicate IsAccountNonLocked() { isAccountNonLocked }
  }

  /** The UserDetails predicates answer from the row: each reports its own
      stored flag and no other field. */
  lemma StatusPredicatesReportFlags(u: User)
    ensures u.IsEnabled() <==> u.isEnabled
    ensures u.IsAccountNonExpired() <==> u.isAccountNonExpired
    ensures u.IsCredentialsNonExpired() <==> u.isCredentialsNonExpired
    ensures u.IsAccountNonLocked() <==> u.isAccountNonLocked
  {
  }

  /** `new User()` followed by the four setters: no id yet (0), role and the
      four status flags at their field defaults. */
  function NewUser(username: string, email: string, password: string, fullName: string): (u: User)
    ensures u.role == USER
    ensures u.IsEnabled() && u.IsAccountNonExpired() && u.IsCredentialsNonExpired() && u.IsAccountNonLocked()
    ensures u.username == username && u.email == email && u.password == password && u.fullName == fullName
  {
    User(0, username, email, password, fullName, USER, true, true, true, true)
  }

  /** getAuthorities: one authority, "ROLE_" followed by the role's name. */
  function Authorities(u: User): (r: seq<string>)
    ensures |r| == 1 && AuthorityRole(r[0]) == Some(u.role)
  {
    var a := "ROLE_" + RoleName(u.role);
    assert a[..5] == "ROLE_" && a[5..] == RoleName(u.role);
    [a]
  }

  /** The role an authority string grants, as Spring's hasRole reads it. */
  function AuthorityRole(a: string): Option<Role> {
    if |a| >= 5 && a[..5] == "ROLE_" then RoleValueOf(a[5..]) else None
  }

  /** Two users hold the same authority exactly when they hold the same role. */
  lemma AuthoritiesDetermineRole(u: User, v: User)
    ensures Authorities(u) == Authorities(v) <==> u.role == v.role
  {
    if Authorities(u) == Authorities(v) {
      assert AuthorityRole(Authorities(u)[0]) == AuthorityRole(Authorities(v)[0]);
    }
  }
}
