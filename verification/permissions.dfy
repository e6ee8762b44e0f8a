/**
 * Permission checks as the framework runs them: authentication first, then
 * each permission class of the view in order (view level), then, for a single
 * object, each class's object check.  `IsOwnerOrReadOnly` opens safe methods
 * to everyone and keeps mutation to the object's creator.
 */
module Permissions {
  import opened Http

  datatype Permission = AllowAny | IsAuthenticated | IsOwnerOrReadOnly

  /** Allowed, or the error the framework raises: 401 NotAuthenticated or 403 PermissionDenied. */
  datatype Decision = Allowed | NotAuthenticated | Forbidden {
    function Status(): int
      requires !Allowed?
    {
      if NotAuthenticated? then UNAUTHORIZED else FORBIDDEN
    }
  }

  /** View-level check; `IsOwnerOrReadOnly` inherits the permissive default. */
  function HasPermission(perm: Permission, p: Principal): bool {
    match perm
    case AllowAny => true
    case IsAuthenticated => p.Authenticated?
    case IsOwnerOrReadOnly => true
  }

  /** `IsOwnerOrReadOnly.has_object_permission`: safe methods pass, otherwise the creator must be the requester. */
  function OwnerOrReadOnly(m: Method, owner: UserId, p: Principal): (r: bool)
    ensures IsSafe(m) ==> r
    ensures !IsSafe(m) ==> (r <==> p == Authenticated(owner))
  {
    IsSafe(m) || (p.Authenticated? && p.user == owner)
  }

  /** Object-level check; the other classes inherit the permissive default. */
  function HasObjectPermission(perm: Permission, p: Principal, m: Method, owner: UserId): bool {
    match perm
    case IsOwnerOrReadOnly => OwnerOrReadOnly(m, owner, p)
    case _ => true
  }

  /** A refusal is 401 when nobody authenticated and 403 otherwise. */
  function Deny(p: Principal): (d: Decision)
    ensures d != Allowed
    ensures d == Forbidden <==> p.Authenticated?
  {
    if p.Authenticated? then Forbidden else NotAuthenticated
  }

  /** The first class in the list that refuses decides; rejected credentials fail before any class runs. */
  function CheckPermissions(perms: seq<Permission>, p: Principal): (d: Decision)
    ensures d == Allowed <==> !p.BadCredentials? && forall i :: 0 <= i < |perms| ==> HasPermission(perms[i], p)
    ensures d != Allowed ==> (d == Forbidden <==> p.Authenticated?)
    decreases |perms|
  {
    if p.BadCredentials? then NotAuthenticated
    else if |perms| == 0 then Allowed
    else if !HasPermission(perms[0], p) then Deny(p)
    else CheckPermissions(perms[1..], p)
  }

  function CheckObjectPermissions(perms: seq<Permission>, p: Principal, m: Method, owner: UserId): (d: Decision)
    ensures d == Allowed <==> forall i :: 0 <= i < |perms| ==> HasObjectPermission(perms[i], p, m, owner)
    ensures d != Allowed ==> (d == Forbidden <==> p.Authenticated?)
    decreases |perms|
  {
    if |perms| == 0 then Allowed
    else if !HasObjectPermission(perms[0], p, m, owner) then Deny(p)
    else CheckObjectPermissions(perms[1..], p, m, owner)
  }

  const DocumentPermissions: seq<Permission> := [IsAuthenticated, IsOwnerOrReadOnly]
  const FilePermissions: seq<Permission> := [IsAuthenticated]

  /** The whole decision on one existing document: view level, then object level. */
  function DocumentAccess(p: Principal, m: Method, owner: UserId): Decision {
    var d := CheckPermissions(DocumentPermissions, p);
    if d != Allowed then d else CheckObjectPermissions(DocumentPermissions, p, m, owner)
  }

  /**
   * The same decision in closed form: strangers are turned away with 401,
   * readers pass, writers pass only on their own documents and otherwise get
   * 403.
   */
  lemma DocumentAccessDecision(p: Principal, m: Method, owner: UserId)
    ensures DocumentAccess(p, m, owner) ==
      if !p.Authenticated? then NotAuthenticated
      else if IsSafe(m) || p.user == owner then Allowed
      else Forbidden
  {
    var perms := DocumentPermissions;
    if p.Authenticated? {
      assert HasPermission(perms[0], p) && HasPermission(perms[1], p);
      if !(IsSafe(m) || p.user == owner) {
        assert !HasObjectPermission(perms[1], p, m, owner);
      }
    } else if !p.BadCredentials? {
      assert !HasPermission(perms[0], p);
    }
  }

  /** Reads are open to every authenticated caller, whoever owns the document. */
  lemma SafeMethodsAllowed(u: UserId, m: Method, owner: UserId)
    requires IsSafe(m)
    ensures DocumentAccess(Authenticated(u), m, owner) == Allowed
  {
    DocumentAccessDecision(Authenticated(u), m, owner);
  }

  /** The owner may do anything to the document. */
  lemma OwnerAllowed(u: UserId, m: Method)
    ensures DocumentAccess(Authenticated(u), m, u) == Allowed
  {
    DocumentAccessDecision(Authenticated(u), m, u);
  }

  /** For a mutating method, access is granted exactly to the owner; anyone else authenticated gets 403, not 401. */
  lemma MutationOnlyByOwner(u: UserId, m: Method, owner: UserId)
    requires !IsSafe(m)
    ensures DocumentAccess(Authenticated(u), m, owner) == Allowed <==> u == owner
    ensures u != owner ==> DocumentAccess(Authenticated(u), m, owner).Status() == FORBIDDEN
  {
    DocumentAccessDecision(Authenticated(u), m, owner);
  }

  /** Without a valid identity the answer is 401 before ownership is looked at. */
  lemma StrangersUnauthorized(p: Principal, m: Method, owner: UserId)
    requires !p.Authenticated?
    ensures DocumentAccess(p, m, owner).Status() == UNAUTHORIZED
  {
    DocumentAccessDecision(p, m, owner);
  }

  /** File endpoints: any authenticated caller passes, whatever the method; nobody else does. */
  lemma FileAccessDecision(p: Principal)
    ensures CheckPermissions(FilePermissions, p) == Allowed <==> p.Authenticated?
    ensures !p.Authenticated? ==> CheckPermissions(FilePermissions, p).Status() == UNAUTHORIZED
  {
    if !p.Authenticated? && !p.BadCredentials? {
      assert !HasPermission(FilePermissions[0], p);
    }
  }
}
