// The presence registry `AppState.user_set` (src/main.rs:53-56) on values:
// `check_username` (src/main.rs:82-90) and the removal at the end of a
// session (src/main.rs:130). The class in session.dfy performs these
// updates in place; the functions here state what each update computes.
module Presence {

  /** The user set and the caller's output string after `check_username`. */
  datatype Checked = Checked(users: set<string>, out: string)

  /**
   * `check_username(state, out, name)`: an absent name is inserted and
   * appended to `out`, which is how the caller learns it was accepted; a
   * present name changes nothing.
   */
  function Check(users: set<string>, out: string, name: string): Checked
  {
    if name !in users then Checked(users + {name}, out + name) else Checked(users, out)
  }

  /** `user_set.remove(name)`; removing an absent name changes nothing. */
  function Remove(users: set<string>, name: string): set<string>
  {
    users - {name}
  }

  lemma CheckAbsent(users: set<string>, out: string, name: string)
    requires name !in users
    ensures Check(users, out, name).users == users + {name}
    ensures Check(users, out, name).out == out + name
  {
  }

  lemma CheckPresent(users: set<string>, out: string, name: string)
    requires name in users
    ensures Check(users, out, name) == Checked(users, out)
  {
  }

  /**
   * `check_username` never removes a name, adds at most one, leaves every
   * other name's membership alone, and afterwards `name` is present.
   */
  lemma CheckOnlyAddsName(users: set<string>, out: string, name: string)
    ensures var r := Check(users, out, name);
      users <= r.users && |r.users| <= |users| + 1 && name in r.users &&
      forall n :: n != name ==> (n in r.users <==> n in users)
  {
    var r := Check(users, out, name);
    if name !in users {
      assert |users + {name}| == |users| + |{name}|;
    }
  }

  /** A second call with the same name changes neither the set nor the string. */
  lemma CheckTwice(users: set<string>, out: string, name: string)
    ensures var a := Check(users, out, name);
      Check(a.users, a.out, name) == a
  {
  }

  /**
   * The output string changes exactly when the name was inserted and is
   * not empty: an accepted empty name leaves no trace in the output.
   */
  lemma CheckSignal(users: set<string>, out: string, name: string)
    ensures Check(users, out, name).out != out <==> name !in users && name != ""
  {
    if name !in users {
      assert |out + name| == |out| + |name|;
      if name == "" {
        assert out + name == out;
      }
    }
  }

  /**
   * Of two `check_username` calls in a row with one name, at most one
   * inserts it, and the first one does exactly when the name was absent:
   * an identity is never counted twice.
   */
  lemma SameNameAcceptedOnce(users: set<string>, out1: string, out2: string, name: string)
    ensures var a := Check(users, out1, name);
      var b := Check(a.users, out2, name);
      b.users == a.users && b.out == out2 &&
      (a.users != users <==> name !in users)
  {
    var a := Check(users, out1, name);
    if name !in users {
      assert name in a.users && name !in users;
    }
  }

  /**
   * Afterwards `name` is absent, every other name keeps its membership,
   * and removing an absent name is a no-op.
   */
  lemma RemoveOnlyName(users: set<string>, name: string)
    ensures name !in Remove(users, name)
    ensures forall n :: n != name ==> (n in Remove(users, name) <==> n in users)
    ensures name !in users ==> Remove(users, name) == users
  {
  }

  /** Removal undoes a successful `check_username`, and removal is idempotent. */
  lemma RemoveUndoesCheck(users: set<string>, out: string, name: string)
    ensures name !in users ==> Remove(Check(users, out, name).users, name) == users
    ensures Remove(Remove(users, name), name) == Remove(users, name)
  {
  }
}
