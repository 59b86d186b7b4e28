/** Pieces shared by the admin classes of the payments and registrations
    apps: the user feedback of a bulk action, the permission test, the
    removal of actions from the action list, and the object the change
    form is handed. */
module AdminCommon {
  import opened Wrappers
  import opened Seqs

  /** The exceptions the admin code lets escape: `del` of a missing key of
      the action dictionary, and `objects.get` of a missing primary key. */
  datatype AdminError = KeyError(key: string) | DoesNotExist(id: nat)

  /** A message posted to the admin user: an error text, or a success
      template together with the count that fills its `%(count)d`. */
  datatype Message = ErrorMessage(text: string) | SuccessMessage(template: string, count: nat)

  /** `_show_message`: zero affected rows is reported as an error, any other
      number as a success carrying that number. */
  function ShowMessage(n: nat, message: string, error: string): (m: Message)
    ensures m.ErrorMessage? <==> n == 0
    ensures m.ErrorMessage? ==> m.text == error
    ensures m.SuccessMessage? ==> m.template == message && m.count == n
  {
    if n == 0 then ErrorMessage(error) else SuccessMessage(message, n)
  }

  /** The message identifies the number of affected rows: two counts give
      the same message exactly when they are equal. */
  lemma ShowMessageRevealsCount(n1: nat, n2: nat, message: string, error: string)
    ensures ShowMessage(n1, message, error) == ShowMessage(n2, message, error) <==> n1 == n2
  {
  }

  /** The permissions the requesting user holds, by codename. */
  type Permissions = set<string>

  predicate HasPerm(perms: Permissions, codename: string) {
    codename in perms
  }

  /** The action dictionary returned by `ModelAdmin.get_actions`, as its
      keys in order. */
  type Actions = seq<string>

  /** `del actions[key]`. */
  function DeleteAction(actions: Actions, key: string): (r: Result<Actions, AdminError>)
    ensures r.Failure? <==> key !in actions
    ensures r.Failure? ==> r.error == KeyError(key)
    ensures r.Success? ==> forall a :: a in r.value <==> a in actions && a != key
  {
    if key in actions then Success(Filter(actions, a => a != key)) else Failure(KeyError(key))
  }

  /** A run of `del actions[key]` statements, one per key, in order; the
      first missing key raises. */
  function DeleteActions(actions: Actions, keys: seq<string>): (r: Result<Actions, AdminError>)
    ensures r.Success? <==> (forall k :: k in keys ==> k in actions) && NoDuplicates(keys)
    ensures r.Failure? ==> r.error.KeyError? && r.error.key in keys
    ensures r.Success? ==> forall a :: a in r.value <==> a in actions && a !in keys
    decreases |keys|
  {
    if keys == [] then Success(actions)
    else
      var rest :- DeleteAction(actions, keys[0]);
      var r := DeleteActions(rest, keys[1..]);
      assert NoDuplicates(keys) <==> keys[0] !in keys[1..] && NoDuplicates(keys[1..]) by {
        if keys[0] !in keys[1..] && NoDuplicates(keys[1..]) {
          forall i, j | 0 <= i < j < |keys| ensures keys[i] != keys[j] {
            if i > 0 {
              assert keys[i] == keys[1..][i - 1] && keys[j] == keys[1..][j - 1];
            } else {
              assert keys[j] == keys[1..][j - 1];
            }
          }
        }
        if NoDuplicates(keys) {
          forall i | 0 <= i < |keys| - 1 ensures keys[1..][i] != keys[0] {
            assert keys[1..][i] == keys[i + 1];
          }
        }
      }
      r
  }

  /** Deleting the keys one by one leaves the other actions in their
      original order: the result is the action list filtered by "not one of
      the keys". */
  lemma {:induction false} DeleteActionsKeepsOrder(actions: Actions, keys: seq<string>)
    requires DeleteActions(actions, keys).Success?
    ensures DeleteActions(actions, keys).value == Filter(actions, a => a !in keys)
    decreases |keys|
  {
    if keys == [] {
      FilterAll(actions, a => a !in keys);
    } else {
      var rest := DeleteAction(actions, keys[0]).value;
      DeleteActionsKeepsOrder(rest, keys[1..]);
      FilterFilter(actions, a => a != keys[0], a => a !in keys[1..], a => a !in keys);
    }
  }

  /** Filtering by a condition every element meets changes nothing. */
  lemma {:induction false} FilterAll(s: seq<string>, p: string -> bool)
    requires forall x :: x in s ==> p(x)
    ensures Filter(s, p) == s
  {
    if s != [] {
      FilterAll(s[1..], p);
    }
  }

  /** `changeform_view`'s gate: the change form is handed the stored object
      only when there is an object id, the user may act on it, and it is in
      a state that allows acting on it; looking up an unknown id raises. */
  function GateObject<T>(allowed: bool, objectId: Option<nat>, table: map<nat, T>, actionable: T -> bool)
    : (r: Result<Option<T>, AdminError>)
    ensures r.Failure? <==> allowed && objectId.Some? && objectId.value !in table
    ensures r.Failure? ==> r.error == DoesNotExist(objectId.value)
    ensures r.Success? && r.value.Some? <==>
              allowed && objectId.Some? && objectId.value in table && actionable(table[objectId.value])
    ensures r.Success? && r.value.Some? ==> r.value.value == table[objectId.value]
  {
    if objectId.Some? && allowed then
      if objectId.value in table then
        var obj := table[objectId.value];
        if actionable(obj) then Success(Some(obj)) else Success(None)
      else Failure(DoesNotExist(objectId.value))
    else Success(None)
  }

  /** The gate looks up only the requested row: two tables that agree on
      that row give the same outcome, whatever else they hold. */
  lemma GateReadsOnlyItsRow<T>(allowed: bool, objectId: Option<nat>, t1: map<nat, T>, t2: map<nat, T>,
                               actionable: T -> bool)
    requires objectId.Some? ==> (objectId.value in t1 <==> objectId.value in t2)
    requires objectId.Some? && objectId.value in t1 ==> t1[objectId.value] == t2[objectId.value]
    ensures GateObject(allowed, objectId, t1, actionable) == GateObject(allowed, objectId, t2, actionable)
  {
  }

  /** A user who may not act sees no object for any id, and never raises. */
  lemma GateClosedWithoutPermission<T>(objectId: Option<nat>, table: map<nat, T>, actionable: T -> bool)
    ensures GateObject(false, objectId, table, actionable) == Success(None)
  {
  }
}
