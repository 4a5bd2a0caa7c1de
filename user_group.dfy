/**
 * Group membership and admin bookkeeping of the secret-santa web service:
 * users and groups kept in two maps keyed by name, and the guarded
 * transitions that create a group, join it, and hand admin rights on or
 * give them up.
 */
module UserGroup {
  import opened Basics

  datatype Group = Group(
    name: Name,
    creator: Name,
    members: seq<Name>,
    admins: seq<Name>,
    closed: bool,
    secretSantas: map<Name, Name>)

  datatype User = User(
    name: Name,
    groups: seq<Name>,
    secretSantas: map<Name, Name>)

  /** Why a request was refused; each carries the names the service's message mentions. */
  datatype ServiceError =
    | GroupExists(group: Name)
    | NoSuchGroup(group: Name)
    | NoSuchUser(user: Name)
    | GroupClosed(group: Name)
    | AlreadyMember(user: Name, group: Name)
    | NotAdmin(user: Name, group: Name)
    | AlreadyAdmin(user: Name, group: Name)
    | SoleAdmin(user: Name, group: Name)

  /** The bookkeeping every group keeps: at least one admin, and no name twice among admins or members. */
  predicate GroupOk(g: Group) {
    |g.admins| > 0 && Distinct(g.admins) && Distinct(g.members)
  }

  /** A new, open group whose creator is its only member and only admin. */
  function NewGroup(name: Name, creator: Name): (g: Group)
    ensures GroupOk(g)
    ensures g.name == name && g.creator == creator
    ensures g.members == [creator] && g.admins == [creator] && !g.closed && g.secretSantas == map[]
  {
    Group(name, creator, [creator], [creator], false, map[])
  }

  function WithMember(g: Group, user: Name): Group {
    g.(members := g.members + [user])
  }

  function WithAdmin(g: Group, user: Name): Group {
    g.(admins := g.admins + [user])
  }

  function WithoutAdmin(g: Group, user: Name): Group {
    g.(admins := Without(g.admins, user))
  }

  /** `s` with every occurrence of `x` removed and every other entry kept as often as it occurs. */
  function Without(s: seq<Name>, x: Name): (r: seq<Name>)
    ensures |r| <= |s|
    ensures forall y :: y in r <==> y in s && y != x
    ensures multiset(r) == multiset(s)[x := 0]
  {
    if s == [] then []
    else
      assert s == [s[0]] + s[1..];
      if s[0] == x then Without(s[1..], x)
      else [s[0]] + Without(s[1..], x)
  }

  /** Removing a name from a duplicate-free list keeps it duplicate-free and drops exactly one entry when the name was there. */
  lemma {:induction false} WithoutDistinct(s: seq<Name>, x: Name)
    requires Distinct(s)
    ensures Distinct(Without(s, x))
    ensures x in s ==> |Without(s, x)| == |s| - 1
    ensures x !in s ==> Without(s, x) == s
  {
    if s != [] {
      assert Distinct(s[1..]);
      WithoutDistinct(s[1..], x);
      if s[0] == x {
        assert x !in s[1..];
      } else {
        var r := Without(s[1..], x);
        assert s[0] !in s[1..];
        assert s[0] !in r;
        assert forall k :: 0 < k < |[s[0]] + r| ==> ([s[0]] + r)[k] == r[k - 1];
        if x !in s {
          assert s == [s[0]] + s[1..];
        }
      }
    }
  }

  /** Joining a group one is not yet a member of keeps the group's bookkeeping. */
  lemma JoinKeepsOk(g: Group, user: Name)
    requires GroupOk(g) && user !in g.members
    ensures GroupOk(WithMember(g, user))
    ensures WithMember(g, user).admins == g.admins
    ensures Elements(WithMember(g, user).members) == Elements(g.members) + {user}
  {
    assert Elements(g.members + [user]) == Elements(g.members) + {user};
  }

  /** Appointing someone who is not yet an admin keeps the admins non-empty and duplicate-free. */
  lemma AddAdminKeepsOk(g: Group, user: Name)
    requires GroupOk(g) && user !in g.admins
    ensures GroupOk(WithAdmin(g, user))
    ensures |WithAdmin(g, user).admins| == |g.admins| + 1
    ensures Elements(WithAdmin(g, user).admins) == Elements(g.admins) + {user}
  {
    assert Elements(g.admins + [user]) == Elements(g.admins) + {user};
  }

  /** An admin who is not the only one may step down, and some admin remains. */
  lemma ResignKeepsOk(g: Group, user: Name)
    requires GroupOk(g) && user in g.admins && |g.admins| != 1
    ensures GroupOk(WithoutAdmin(g, user))
    ensures |WithoutAdmin(g, user).admins| == |g.admins| - 1
    ensures Elements(WithoutAdmin(g, user).admins) == Elements(g.admins) - {user}
  {
    WithoutDistinct(g.admins, user);
  }

  /** The service state: every user and every group, by name. */
  class Service {
    var users: map<Name, User>
    var groups: map<Name, Group>

    /** Every group keeps its bookkeeping. */
    ghost predicate Valid()
      reads this
    {
      forall g :: g in groups ==> GroupOk(groups[g])
    }

    /**
     * An empty service. No operation here registers a user: `users` is a
     * field that is filled from outside the service.
     */
    constructor ()
      ensures Valid() && users == map[] && groups == map[]
    {
      users := map[];
      groups := map[];
    }

    /**
     * Creates `groupName` with `creator` as its only member and admin and
     * records the group in the creator's list. Refused, in this order, when
     * the name is taken and when the creator is unknown.
     */
    method CreateGroup(groupName: Name, creator: Name) returns (r: Result<(), ServiceError>)
      requires Valid()
      modifies this
      ensures Valid()
      ensures groupName in old(groups) ==>
                r == Err(GroupExists(groupName)) && groups == old(groups) && users == old(users)
      ensures groupName !in old(groups) && creator !in old(users) ==>
                r == Err(NoSuchUser(creator)) && groups == old(groups) && users == old(users)
      ensures groupName !in old(groups) && creator in old(users) ==>
                r == Ok(()) &&
                groups == old(groups)[groupName := NewGroup(groupName, creator)] &&
                users == old(users)[creator := old(users)[creator].(groups := old(users)[creator].groups + [groupName])]
    {
      if groupName in groups {
        return Err(GroupExists(groupName));
      }
      if creator !in users {
        return Err(NoSuchUser(creator));
      }
      groups := groups[groupName := NewGroup(groupName, creator)];
      var u := users[creator];
      users := users[creator := u.(groups := u.groups + [groupName])];
      r := Ok(());
    }

    /**
     * Adds `user` to the members of `groupName`. Refused, in this order,
     * when the group does not exist, is closed, the user is unknown, or the
     * user is already a member. The users are never changed.
     */
    method JoinGroup(groupName: Name, user: Name) returns (r: Result<(), ServiceError>)
      requires Valid()
      modifies this
      ensures Valid() && users == old(users)
      ensures groupName !in old(groups) ==>
                r == Err(NoSuchGroup(groupName)) && groups == old(groups)
      ensures groupName in old(groups) && old(groups)[groupName].closed ==>
                r == Err(GroupClosed(groupName)) && groups == old(groups)
      ensures groupName in old(groups) && !old(groups)[groupName].closed && user !in old(users) ==>
                r == Err(NoSuchUser(user)) && groups == old(groups)
      ensures groupName in old(groups) && !old(groups)[groupName].closed && user in old(users) &&
              user in old(groups)[groupName].members ==>
                r == Err(AlreadyMember(user, groupName)) && groups == old(groups)
      ensures groupName in old(groups) && !old(groups)[groupName].closed && user in old(users) &&
              user !in old(groups)[groupName].members ==>
                r == Ok(()) && groups == old(groups)[groupName := WithMember(old(groups)[groupName], user)]
    {
      if groupName !in groups {
        return Err(NoSuchGroup(groupName));
      }
      var group := groups[groupName];
      if group.closed {
        return Err(GroupClosed(groupName));
      }
      if user !in users {
        return Err(NoSuchUser(user));
      }
      if user in group.members {
        return Err(AlreadyMember(user, groupName));
      }
      JoinKeepsOk(group, user);
      groups := groups[groupName := WithMember(group, user)];
      r := Ok(());
    }

    /**
     * `user` makes `newAdmin` an admin of `groupName`. Refused, in this
     * order, when the group, the user or the new admin does not exist,
     * when the user's name is not among the admins, and when the new
     * admin's name already is. Names are taken from the user records.
     */
    method AssignAdmin(groupName: Name, user: Name, newAdmin: Name) returns (r: Result<(), ServiceError>)
      requires Valid()
      modifies this
      ensures Valid() && users == old(users)
      ensures groupName !in old(groups) ==>
                r == Err(NoSuchGroup(groupName)) && groups == old(groups)
      ensures groupName in old(groups) && user !in old(users) ==>
                r == Err(NoSuchUser(user)) && groups == old(groups)
      ensures groupName in old(groups) && user in old(users) && newAdmin !in old(users) ==>
                r == Err(NoSuchUser(newAdmin)) && groups == old(groups)
      ensures groupName in old(groups) && user in old(users) && newAdmin in old(users) &&
              users[user].name !in old(groups)[groupName].admins ==>
                r == Err(NotAdmin(users[user].name, groupName)) && groups == old(groups)
      ensures groupName in old(groups) && user in old(users) && newAdmin in old(users) &&
              users[user].name in old(groups)[groupName].admins &&
              users[newAdmin].name in old(groups)[groupName].admins ==>
                r == Err(AlreadyAdmin(users[newAdmin].name, groupName)) && groups == old(groups)
      ensures groupName in old(groups) && user in old(users) && newAdmin in old(users) &&
              users[user].name in old(groups)[groupName].admins &&
              users[newAdmin].name !in old(groups)[groupName].admins ==>
                r == Ok(()) &&
                groups == old(groups)[groupName := WithAdmin(old(groups)[groupName], users[newAdmin].name)]
    {
      if groupName !in groups {
        return Err(NoSuchGroup(groupName));
      }
      var group := groups[groupName];
      if user !in users {
        return Err(NoSuchUser(user));
      }
      var caller := users[user];
      if newAdmin !in users {
        return Err(NoSuchUser(newAdmin));
      }
      var appointee := users[newAdmin];
      if caller.name !in group.admins {
        return Err(NotAdmin(caller.name, groupName));
      }
      if appointee.name in group.admins {
        return Err(AlreadyAdmin(appointee.name, groupName));
      }
      AddAdminKeepsOk(group, appointee.name);
      groups := groups[groupName := WithAdmin(group, appointee.name)];
      r := Ok(());
    }

    /**
     * `user` gives up admin rights in `groupName`. Refused, in this order,
     * when the group or the user does not exist, when the user's name is
     * not among the admins, and when they are the only admin.
     */
    method ResignAdmin(groupName: Name, user: Name) returns (r: Result<(), ServiceError>)
      requires Valid()
      modifies this
      ensures Valid() && users == old(users)
      ensures groupName !in old(groups) ==>
                r == Err(NoSuchGroup(groupName)) && groups == old(groups)
      ensures groupName in old(groups) && user !in old(users) ==>
                r == Err(NoSuchUser(user)) && groups == old(groups)
      ensures groupName in old(groups) && user in old(users) &&
              users[user].name !in old(groups)[groupName].admins ==>
                r == Err(NotAdmin(users[user].name, groupName)) && groups == old(groups)
      ensures groupName in old(groups) && user in old(users) &&
              users[user].name in old(groups)[groupName].admins && |old(groups)[groupName].admins| == 1 ==>
                r == Err(SoleAdmin(users[user].name, groupName)) && groups == old(groups)
      ensures groupName in old(groups) && user in old(users) &&
              users[user].name in old(groups)[groupName].admins && |old(groups)[groupName].admins| != 1 ==>
                r == Ok(()) &&
                groups == old(groups)[groupName := WithoutAdmin(old(groups)[groupName], users[user].name)]
    {
      if groupName !in groups {
        return Err(NoSuchGroup(groupName));
      }
      var group := groups[groupName];
      if user !in users {
        return Err(NoSuchUser(user));
      }
      var caller := users[user];
      if caller.name !in group.admins {
        return Err(NotAdmin(caller.name, groupName));
      }
      if |group.admins| == 1 {
        return Err(SoleAdmin(caller.name, groupName));
      }
      ResignKeepsOk(group, caller.name);
      groups := groups[groupName := WithoutAdmin(group, caller.name)];
      r := Ok(());
    }
  }
}
