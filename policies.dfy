/**
 * Bag access policies: an allow-list of user names per action, and the
 * ownership restriction the importer puts on every bag it creates.
 */
module Policies {
  import opened Wrappers

  /** The user name tiddlyweb gives an anonymous request. */
  const Guest := "GUEST"

  datatype Action = Read | Write | Create | Delete | Manage | Accept

  /** The constraints the importer restricts, in the order it sets them; `accept` is left alone. */
  const RestrictedActions: seq<Action> := [Read, Write, Create, Delete, Manage]

  /** A bag's policy: an optional owner and, per action, the users allowed (empty: anyone). */
  datatype Policy = Policy(
    owner: Option<string>,
    read: seq<string>,
    write: seq<string>,
    create: seq<string>,
    delete: seq<string>,
    manage: seq<string>,
    accept: seq<string>)
  {
    /** The allow-list of one action (`getattr(policy, constraint)`). */
    function Constraint(a: Action): seq<string>
    {
      match a
      case Read => read
      case Write => write
      case Create => create
      case Delete => delete
      case Manage => manage
      case Accept => accept
    }

    /** This policy with the allow-list of `a` replaced (`setattr(policy, constraint, users)`). */
    function WithConstraint(a: Action, users: seq<string>): (p: Policy)
      ensures p.Constraint(a) == users
      ensures forall b :: b != a ==> p.Constraint(b) == Constraint(b)
      ensures p.owner == owner
    {
      match a
      case Read => this.(read := users)
      case Write => this.(write := users)
      case Create => this.(create := users)
      case Delete => this.(delete := users)
      case Manage => this.(manage := users)
      case Accept => this.(accept := users)
    }
  }

  /** The policy of a newly constructed bag: no owner, every action open to anyone. */
  const DefaultPolicy := Policy(None, [], [], [], [], [], [])

  /** Whether `user` may perform `a` under `p`: an empty allow-list admits everyone. */
  predicate Allows(p: Policy, user: string, a: Action)
  {
    |p.Constraint(a)| == 0 || user in p.Constraint(a)
  }

  /** The policy `_set_restricted_policy` leaves behind for `user`. */
  function Restricted(user: string, p: Policy): Policy
  {
    if user == Guest then p
    else Policy(Some(user), [user], [user], [user], [user], [user], p.accept)
  }

  /**
   * Restricts `p` to `user`: unless the user is the guest, the owner becomes
   * the user and each restricted constraint becomes exactly `[user]`.
   */
  method SetRestrictedPolicy(user: string, p: Policy) returns (q: Policy)
    ensures q == Restricted(user, p)
  {
    if user == Guest {
      return p;
    }
    q := p.(owner := Some(user));
    for i := 0 to |RestrictedActions|
      invariant q.owner == Some(user) && q.accept == p.accept
      invariant forall j :: 0 <= j < i ==> q.Constraint(RestrictedActions[j]) == [user]
    {
      q := q.WithConstraint(RestrictedActions[i], [user]);
    }
    assert q.read == q.Constraint(RestrictedActions[0]);
    assert q.write == q.Constraint(RestrictedActions[1]);
    assert q.create == q.Constraint(RestrictedActions[2]);
    assert q.delete == q.Constraint(RestrictedActions[3]);
    assert q.manage == q.Constraint(RestrictedActions[4]);
  }

  /** Ownership: a non-guest user owns the bag and is the only user of each restricted action. */
  lemma RestrictedOwnership(user: string, p: Policy)
    requires user != Guest
    ensures Restricted(user, p).owner == Some(user)
    ensures forall a :: a in RestrictedActions ==> Restricted(user, p).Constraint(a) == [user]
    ensures Restricted(user, p).accept == p.accept
  {
  }

  /** For a non-guest user, the restricted actions are allowed to that user and to nobody else. */
  lemma RestrictedAllowsOnlyOwner(user: string, p: Policy, other: string, a: Action)
    requires user != Guest
    requires a in RestrictedActions
    ensures Allows(Restricted(user, p), other, a) <==> other == user
  {
  }

  /** The guest gets no restriction: the policy is left as it was. */
  lemma GuestUnrestricted(p: Policy)
    ensures Restricted(Guest, p) == p
  {
  }

  /** A bag the importer creates is always writable by the user who created it. */
  lemma CreatorMayWrite(user: string)
    ensures Allows(Restricted(user, DefaultPolicy), user, Write)
  {
  }
}
