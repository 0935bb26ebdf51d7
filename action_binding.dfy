/**
 * `ActionBinding`: a mutable map from key strokes to actions. Parsing a
 * key stroke and instantiating an action by reflection are foreign; the
 * model keeps the map and the string split that names the field holding
 * an action constant.
 */
module ActionBinding {
  import opened Wrappers
  import opened Strings

  /** `Optional.ofNullable(actions.get(key))`. */
  function Lookup<K, A>(actions: map<K, A>, key: K): (r: Option<A>)
    ensures r.Some? <==> key in actions
    ensures r.Some? ==> r.value == actions[key]
  {
    if key in actions then Some(actions[key]) else None
  }

  /** After binding `key`, it resolves to the action just bound. */
  lemma BindThenResolve<K, A>(actions: map<K, A>, key: K, action: A)
    ensures Lookup(actions[key := action], key) == Some(action)
  {
  }

  /** Binding `key` changes what no other key resolves to. */
  lemma BindKeepsOthers<K, A>(actions: map<K, A>, key: K, action: A, other: K)
    requires other != key
    ensures Lookup(actions[key := action], other) == Lookup(actions, other)
  {
  }

  /** Binding a key twice keeps only the second action. */
  lemma RebindOverwrites<K, A>(actions: map<K, A>, key: K, first: A, second: A)
    ensures Lookup(actions[key := first][key := second], key) == Some(second)
    ensures actions[key := first][key := second] == actions[key := second]
  {
  }

  /** The map after binding the pairs in order: a later pair for a key wins. */
  function Bound<K, A>(pairs: seq<(K, A)>): map<K, A> {
    if pairs == [] then map[] else Bound(pairs[..|pairs| - 1])[pairs[|pairs| - 1].0 := pairs[|pairs| - 1].1]
  }

  /**
   * With distinct keys, as a properties file has, every key resolves to
   * its own action and no other key resolves at all.
   */
  lemma {:induction false} BoundDistinct<K, A>(pairs: seq<(K, A)>, key: K)
    requires forall i, j :: 0 <= i < j < |pairs| ==> pairs[i].0 != pairs[j].0
    ensures Lookup(Bound(pairs), key).None? <==> forall i :: 0 <= i < |pairs| ==> pairs[i].0 != key
    ensures forall i :: 0 <= i < |pairs| && pairs[i].0 == key ==> Lookup(Bound(pairs), key) == Some(pairs[i].1)
  {
    if pairs != [] {
      var init := pairs[..|pairs| - 1];
      assert forall i :: 0 <= i < |init| ==> init[i] == pairs[i];
      BoundDistinct(init, key);
    }
  }

  class ActionBinding<K(==), A> {
    var actions: map<K, A>

    /** An empty binding. */
    constructor ()
      ensures actions == map[]
    {
      actions := map[];
    }

    /** `bind(key, action)`: stores the pair, replacing any earlier one, and returns this binding. */
    method Bind(key: K, action: A) returns (self: ActionBinding<K, A>)
      modifies this
      ensures actions == old(actions)[key := action]
      ensures self == this
    {
      actions := actions[key := action];
      return this;
    }

    /** `resolve(key)`. */
    function Resolve(key: K): (r: Option<A>)
      reads this
      ensures r.Some? <==> key in actions
      ensures r.Some? ==> r.value == actions[key]
    {
      Lookup(actions, key)
    }
  }

  /**
   * `from(stream)`, once the properties are read, each key stroke parsed
   * and each action instantiated: the pairs are bound in iteration order.
   */
  method From<K(==), A>(pairs: seq<(K, A)>) returns (binding: ActionBinding<K, A>)
    ensures fresh(binding) && binding.actions == Bound(pairs)
  {
    binding := new ActionBinding();
    var i := 0;
    while i < |pairs|
      invariant 0 <= i <= |pairs| && binding.actions == Bound(pairs[..i])
    {
      assert pairs[..i + 1][..i] == pairs[..i];
      var _ := binding.Bind(pairs[i].0, pairs[i].1);
      i := i + 1;
    }
    assert pairs[..i] == pairs;
  }

  /**
   * The fallback of `getAction`: the value split at its last '.' into a
   * class name and a field name; with no '.' `substring(0, -1)` throws.
   */
  function SplitAtLastDot(value: string): (r: Result<(string, string)>)
    ensures r.Err? <==> '.' !in value
    ensures r.Ok? ==> r.value.0 + "." + r.value.1 == value && '.' !in r.value.1
  {
    var lastIndexOfDot := LastIndexOf(value, '.');
    LastIndexOfAbsent(value, '.');
    if lastIndexOfDot < 0 then Err(IndexOutOfBounds)
    else
      var className := value[..lastIndexOfDot];
      var fieldName := value[lastIndexOfDot + 1..];
      assert className + "." + fieldName == value;
      assert forall j :: 0 <= j < |fieldName| ==> fieldName[j] == value[lastIndexOfDot + 1 + j];
      Ok((className, fieldName))
  }

  /** Any class name joined to a dot-free field name is split back into the two. */
  lemma SplitJoined(className: string, fieldName: string)
    requires '.' !in fieldName
    ensures SplitAtLastDot(className + "." + fieldName) == Ok((className, fieldName))
  {
    var value := className + "." + fieldName;
    var r := SplitAtLastDot(value);
    var i := LastIndexOf(value, '.');
    assert value[|className|] == '.';
    assert forall j :: |className| < j < |value| ==> value[j] == fieldName[j - |className| - 1];
    assert i == |className|;
    assert value[..i] == className;
    assert value[i + 1..] == fieldName;
  }
}
