/**
 * `replace_custom_values`: `"name value"` strings given on the command line, checked all
 * at once, grouped by name in first-seen order, and then applied one name at a time
 * with `replace_config_values`.
 */
module Custom {
  import opened Base
  import opened Text
  import opened Config

  /** The `ValueError` raised for an entry that is not a name and a value. */
  datatype Error = InvalidCustomValue(raw: string)

  /**
   * One entry: stripped, then split at its first whitespace run into exactly a name and
   * a value; anything that does not split in two is invalid.
   */
  function ParseCustomValue(raw: string): Result<(string, string), Error> {
    match SplitAtSpaceRun(Strip(raw))
    case None => Failure(InvalidCustomValue(raw))
    case Some((name, _, value)) => Success((name, value))
  }

  /**
   * An entry is invalid exactly when its stripped text has no whitespace; a valid one
   * gives a non-empty, whitespace-free name and a non-empty value without whitespace at
   * either end.
   */
  lemma ParseCustomValueSpec(raw: string)
    ensures ParseCustomValue(raw).Failure? <==> NoSpace(Strip(raw))
    ensures ParseCustomValue(raw).Failure? ==> ParseCustomValue(raw).error == InvalidCustomValue(raw)
    ensures ParseCustomValue(raw).Success? ==>
              var (name, value) := ParseCustomValue(raw).value;
              && name != [] && NoSpace(name)
              && value != [] && IsStripped(value) && !IsSpace(value[0])
  {
    var t := Strip(raw);
    if SplitAtSpaceRun(t).Some? {
      SplitAtSpaceRunStripped(t);
      var (name, sep, value) := SplitAtSpaceRun(t).value;
      assert value[|value| - 1] == t[|t| - 1];
    }
  }

  /**
   * An entry written as a name, whitespace and a value, with any whitespace around it,
   * is read back as that name and value.
   */
  lemma ParseCustomValueOf(w1: string, name: string, sep: string, value: string, w2: string)
    requires AllSpace(w1) && AllSpace(w2)
    requires name != [] && NoSpace(name) && sep != [] && AllSpace(sep)
    requires value != [] && IsStripped(value)
    ensures ParseCustomValue(w1 + (name + sep + value) + w2) == Success((name, value))
  {
    var x := name + sep + value;
    assert Strip(w1 + x + w2) == x by {
      assert x[0] == name[0] && x[|x| - 1] == value[|value| - 1];
      StripPadded(w1, x, w2);
    }
    SplitAtSpaceRunOf(name, sep, value);
  }

  /** Every entry parsed on its own. */
  function Parses(raws: seq<string>): (rs: seq<Result<(string, string), Error>>)
    ensures |rs| == |raws|
    ensures forall i | 0 <= i < |raws| :: rs[i] == ParseCustomValue(raws[i])
  {
    seq(|raws|, i requires 0 <= i < |raws| => ParseCustomValue(raws[i]))
  }

  /** Index of the first failure, or the number of results when none failed. */
  function FirstFailure<T, E>(rs: seq<Result<T, E>>): (j: nat)
    ensures j <= |rs|
    ensures forall i | 0 <= i < j :: rs[i].Success?
    ensures j < |rs| ==> rs[j].Failure?
  {
    if rs == [] || rs[0].Failure? then 0 else 1 + FirstFailure(rs[1..])
  }

  /** Index of the first invalid entry, or the number of entries when all are valid. */
  function FirstInvalid(raws: seq<string>): nat {
    FirstFailure(Parses(raws))
  }

  /** The results' values in order, or the first failure, as a loop that stops at the first error. */
  function Collect<T, E>(rs: seq<Result<T, E>>): Result<seq<T>, E> {
    if rs == [] then Success([])
    else
      match Collect(rs[..|rs| - 1])
      case Failure(e) => Failure(e)
      case Success(vs) =>
        match rs[|rs| - 1]
        case Failure(e) => Failure(e)
        case Success(v) => Success(vs + [v])
  }

  /**
   * Collecting fails exactly when some result failed, and then with the first failure;
   * otherwise it gives every value, in order.
   */
  lemma {:induction false} CollectSpec<T, E>(rs: seq<Result<T, E>>)
    ensures Collect(rs).Failure? <==> FirstFailure(rs) < |rs|
    ensures Collect(rs).Failure? ==> Collect(rs).error == rs[FirstFailure(rs)].error
    ensures Collect(rs).Success? ==>
              && |Collect(rs).value| == |rs|
              && forall i | 0 <= i < |rs| :: Collect(rs).value[i] == rs[i].value
  {
    if rs != [] {
      var pre := rs[..|rs| - 1];
      CollectSpec(pre);
      FirstFailureSnoc(rs);
      assert forall i | 0 <= i < |pre| :: pre[i] == rs[i];
    }
  }

  /** The first failure of a list is that of its prefix, if the prefix has one. */
  lemma FirstFailureSnoc<T, E>(rs: seq<Result<T, E>>)
    requires rs != []
    ensures var pre := rs[..|rs| - 1];
            var j := FirstFailure(pre);
            FirstFailure(rs) == if j < |pre| || rs[|rs| - 1].Failure? then j else |rs|
  {
    var pre := rs[..|rs| - 1];
    var j := FirstFailure(pre);
    assert forall i | 0 <= i < |pre| :: pre[i] == rs[i];
    FirstFailureIs(rs, if j < |pre| || rs[|rs| - 1].Failure? then j else |rs|);
  }

  lemma FirstFailureIs<T, E>(rs: seq<Result<T, E>>, j: nat)
    requires j <= |rs|
    requires forall i | 0 <= i < j :: rs[i].Success?
    requires j < |rs| ==> rs[j].Failure?
    ensures FirstFailure(rs) == j
  {
  }

  /** The first loop of `replace_custom_values`: every entry parsed, the first invalid one raising. */
  function ParseCustomValues(raws: seq<string>): Result<seq<(string, string)>, Error> {
    Collect(Parses(raws))
  }

  /**
   * Parsing all entries fails exactly when one is invalid, and then with the error of
   * the first invalid one; otherwise it gives one name and value per entry, in order.
   */
  lemma ParseCustomValuesSpec(raws: seq<string>)
    ensures ParseCustomValues(raws).Failure? <==> FirstInvalid(raws) < |raws|
    ensures ParseCustomValues(raws).Failure? ==>
              ParseCustomValues(raws).error == InvalidCustomValue(raws[FirstInvalid(raws)])
    ensures ParseCustomValues(raws).Success? ==>
              && |ParseCustomValues(raws).value| == |raws|
              && forall i | 0 <= i < |raws| ::
                   ParseCustomValues(raws).value[i] == ParseCustomValue(raws[i]).value
  {
    CollectSpec(Parses(raws));
    if ParseCustomValues(raws).Failure? {
      ParseCustomValueSpec(raws[FirstInvalid(raws)]);
    }
  }

  /**
   * The `OrderedDict` built by `setdefault(name, []).append(value)`: the names in the
   * order they were first seen, and the values of each name.
   */
  datatype Grouping = Grouping(keys: seq<string>, values: map<string, seq<string>>)

  predicate Distinct(s: seq<string>) {
    forall i, j | 0 <= i < j < |s| :: s[i] != s[j]
  }

  /** What every grouping built from entries satisfies. */
  ghost predicate WellFormed(g: Grouping) {
    && Distinct(g.keys)
    && (forall k :: k in g.values <==> k in g.keys)
    && (forall k | k in g.values :: g.values[k] != [])
  }

  /** One `setdefault(name, []).append(value)`. */
  function AddPair(g: Grouping, p: (string, string)): Grouping {
    var (name, value) := p;
    if name in g.values then Grouping(g.keys, g.values[name := g.values[name] + [value]])
    else Grouping(g.keys + [name], g.values[name := [value]])
  }

  function Group(pairs: seq<(string, string)>): (g: Grouping)
    ensures WellFormed(g)
  {
    if pairs == [] then Grouping([], map[])
    else
      var g' := Group(pairs[..|pairs| - 1]);
      var name := pairs[|pairs| - 1].0;
      assert name !in g'.values ==> forall i | 0 <= i < |g'.keys| :: g'.keys[i] != name;
      AddPair(g', pairs[|pairs| - 1])
  }

  /** The values given for `name`, in the order given. */
  function ValuesOf(pairs: seq<(string, string)>, name: string): seq<string> {
    if pairs == [] then []
    else
      var last := pairs[|pairs| - 1];
      ValuesOf(pairs[..|pairs| - 1], name) + (if last.0 == name then [last.1] else [])
  }

  /** The grouping holds a name exactly when some entry has it, with that name's values in order. */
  lemma {:induction false} GroupValues(pairs: seq<(string, string)>, name: string)
    ensures name in Group(pairs).values <==> ValuesOf(pairs, name) != []
    ensures name in Group(pairs).values ==> Group(pairs).values[name] == ValuesOf(pairs, name)
  {
    if pairs != [] {
      GroupValues(pairs[..|pairs| - 1], name);
    }
  }

  /** Index of the first entry with name `name`, or the number of entries when there is none. */
  function FirstNamed(pairs: seq<(string, string)>, name: string): (j: nat)
    ensures j <= |pairs|
    ensures forall i | 0 <= i < j :: pairs[i].0 != name
    ensures j < |pairs| ==> pairs[j].0 == name
  {
    if pairs == [] || pairs[0].0 == name then 0 else 1 + FirstNamed(pairs[1..], name)
  }

  lemma FirstNamedIs(pairs: seq<(string, string)>, name: string, j: nat)
    requires j <= |pairs|
    requires forall i | 0 <= i < j :: pairs[i].0 != name
    requires j < |pairs| ==> pairs[j].0 == name
    ensures FirstNamed(pairs, name) == j
  {
  }

  /** Where a name is first seen does not move when entries are added after it. */
  lemma FirstNamedSnoc(pairs: seq<(string, string)>, name: string)
    requires pairs != []
    ensures var pre := pairs[..|pairs| - 1];
            var j := FirstNamed(pre, name);
            FirstNamed(pairs, name) == if j < |pre| || pairs[|pairs| - 1].0 == name then j else |pairs|
  {
    var pre := pairs[..|pairs| - 1];
    var j := FirstNamed(pre, name);
    assert forall i | 0 <= i < |pre| :: pre[i] == pairs[i];
    FirstNamedIs(pairs, name, if j < |pre| || pairs[|pairs| - 1].0 == name then j else |pairs|);
  }

  /** The grouping's names are the names of the entries. */
  lemma {:induction false} GroupKeys(pairs: seq<(string, string)>, name: string)
    ensures name in Group(pairs).keys <==> FirstNamed(pairs, name) < |pairs|
  {
    if pairs != [] {
      var pre := pairs[..|pairs| - 1];
      GroupKeys(pre, name);
      FirstNamedSnoc(pairs, name);
    }
  }

  /** The grouping lists the names in the order in which each was first seen. */
  lemma {:induction false} GroupFirstSeenOrder(pairs: seq<(string, string)>)
    ensures forall i, j | 0 <= i < j < |Group(pairs).keys| ::
              FirstNamed(pairs, Group(pairs).keys[i]) < FirstNamed(pairs, Group(pairs).keys[j])
  {
    if pairs != [] {
      var pre := pairs[..|pairs| - 1];
      var last := pairs[|pairs| - 1];
      GroupFirstSeenOrder(pre);
      var keys, keys' := Group(pairs).keys, Group(pre).keys;
      forall k | k in keys'
        ensures FirstNamed(pairs, k) == FirstNamed(pre, k) < |pre|
      {
        GroupKeys(pre, k);
        FirstNamedSnoc(pairs, k);
      }
      forall i, j | 0 <= i < j < |keys|
        ensures FirstNamed(pairs, keys[i]) < FirstNamed(pairs, keys[j])
      {
        assert keys[i] == keys'[i];
        if j < |keys'| {
          assert keys[j] == keys'[j];
        } else {
          assert keys[j] == last.0 && last.0 !in keys';
          GroupKeys(pre, last.0);
          FirstNamedSnoc(pairs, last.0);
        }
      }
    }
  }

  /** The second loop: `replace_config_values` once per name, in the grouping's order. */
  function ApplyKeys(doc: Doc, keys: seq<string>, values: map<string, seq<string>>): Doc
    requires forall k | k in keys :: k in values
    decreases |keys|
  {
    if keys == [] then doc
    else ApplyKeys(ReplaceConfigValues(doc, keys[0], Many(values[keys[0]])), keys[1..], values)
  }

  /**
   * Applying distinct names one after the other: each named one ends up with its own
   * values, every other name keeps its values.
   */
  lemma {:induction false} ApplyKeysValues(doc: Doc, keys: seq<string>, values: map<string, seq<string>>, name: string)
    requires Distinct(keys)
    requires forall k | k in keys :: k in values && values[k] != []
    ensures GetConfigValues(ApplyKeys(doc, keys, values), name)
         == if name in keys then values[name] else GetConfigValues(doc, name)
    decreases |keys|
  {
    if keys != [] {
      var k := keys[0];
      var doc' := ReplaceConfigValues(doc, k, Many(values[k]));
      assert Distinct(keys[1..]) by {
        assert forall i | 0 <= i < |keys[1..]| :: keys[1..][i] == keys[i + 1];
      }
      ApplyKeysValues(doc', keys[1..], values, name);
      if name == k {
        assert name !in keys[1..] by {
          assert forall i | 0 <= i < |keys[1..]| :: keys[1..][i] == keys[i + 1];
        }
        ReplaceSetsValues(doc, k, Many(values[k]));
      } else {
        assert name in keys <==> name in keys[1..];
        ReplaceKeepsOthers(doc, k, Many(values[k]), name);
      }
    }
  }

  /**
   * `replace_custom_values`: nothing for an absent or empty list; an error, before any
   * change, when an entry is invalid; otherwise every name's values replaced in turn.
   */
  function ReplaceCustomValues(doc: Doc, custom: Option<seq<string>>): (r: Result<Doc, Error>)
    ensures custom == None || custom == Some([]) ==> r == Success(doc)
  {
    if custom == None || custom.value == [] then Success(doc)
    else
      match ParseCustomValues(custom.value)
      case Failure(e) => Failure(e)
      case Success(pairs) =>
        var g := Group(pairs);
        Success(ApplyKeys(doc, g.keys, g.values))
  }

  /** An invalid entry makes the whole call fail, with the first invalid entry. */
  lemma ReplaceCustomValuesFails(doc: Doc, raws: seq<string>)
    requires raws != []
    ensures ReplaceCustomValues(doc, Some(raws)).Failure? <==> exists i | 0 <= i < |raws| :: NoSpace(Strip(raws[i]))
    ensures ReplaceCustomValues(doc, Some(raws)).Failure? ==>
              ReplaceCustomValues(doc, Some(raws)).error == InvalidCustomValue(raws[FirstInvalid(raws)])
  {
    ParseCustomValuesSpec(raws);
    var j := FirstInvalid(raws);
    if j == |raws| {
      forall i | 0 <= i < |raws|
        ensures !NoSpace(Strip(raws[i]))
      {
        ParseCustomValueSpec(raws[i]);
      }
    } else {
      ParseCustomValueSpec(raws[j]);
    }
  }

  /**
   * When every entry is valid, each name given ends up with exactly its values, in the
   * order given, and every other name keeps its values.
   */
  lemma ReplaceCustomValuesSetsValues(doc: Doc, raws: seq<string>, name: string)
    requires raws != [] && ParseCustomValues(raws).Success?
    ensures var given := ValuesOf(ParseCustomValues(raws).value, name);
            (GetConfigValues(ReplaceCustomValues(doc, Some(raws)).value, name)
             == if given != [] then given else GetConfigValues(doc, name))
  {
    var pairs := ParseCustomValues(raws).value;
    var g := Group(pairs);
    GroupValues(pairs, name);
    ApplyKeysValues(doc, g.keys, g.values, name);
  }

  /**
   * The first loop of `replace_custom_values`: every entry parsed and added to the
   * grouping, stopping with the error at the first invalid one.
   */
  method GroupEntries(raws: seq<string>) returns (g: Grouping, err: Option<Error>)
    ensures err.Some? <==> ParseCustomValues(raws).Failure?
    ensures err.Some? ==> err.value == ParseCustomValues(raws).error
    ensures err.None? ==> g == Group(ParseCustomValues(raws).value)
  {
    g := Grouping([], map[]);
    ghost var rs := Parses(raws);
    ghost var pairs: seq<(string, string)> := [];
    for i := 0 to |raws|
      invariant Collect(rs[..i]) == Success(pairs)
      invariant g == Group(pairs)
    {
      var p := ParseCustomValue(raws[i]);
      CollectSnoc(rs, i);
      if p.Failure? {
        FailureSticks(rs, i + 1);
        return g, Some(p.error);
      }
      GroupSnoc(pairs, p.value);
      g := AddPair(g, p.value);
      pairs := pairs + [p.value];
    }
    assert rs[..|rs|] == rs;
    err := None;
  }

  /** The second loop: each name's values replaced in place, in the grouping's order. */
  method ApplyGrouping(doc: Doc, g: Grouping) returns (r: Doc)
    requires forall k | k in g.keys :: k in g.values
    ensures r == ApplyKeys(doc, g.keys, g.values)
  {
    r := doc;
    for i := 0 to |g.keys|
      invariant ApplyKeys(r, g.keys[i..], g.values) == ApplyKeys(doc, g.keys, g.values)
    {
      assert g.keys[i..][1..] == g.keys[i + 1..];
      r := ReplaceConfigValuesInPlace(r, g.keys[i], Many(g.values[g.keys[i]]));
    }
  }

  /**
   * `replace_custom_values` as the source does it: nothing for an absent or empty
   * list, the error with the document untouched for an invalid entry, and otherwise the
   * document with every name's values replaced.
   */
  method ReplaceCustomValuesInPlace(doc: Doc, custom: Option<seq<string>>) returns (r: Doc, err: Option<Error>)
    ensures err.Some? ==> r == doc
    ensures ReplaceCustomValues(doc, custom) == if err.Some? then Failure(err.value) else Success(r)
  {
    if custom == None || custom.value == [] {
      return doc, None;
    }
    var g;
    g, err := GroupEntries(custom.value);
    if err.Some? {
      return doc, err;
    }
    r := ApplyGrouping(doc, g);
  }

  /** Collecting one more result. */
  lemma CollectSnoc<T, E>(rs: seq<Result<T, E>>, i: nat)
    requires i < |rs|
    ensures Collect(rs[..i + 1]) == match Collect(rs[..i])
                                    case Failure(e) => Failure(e)
                                    case Success(vs) =>
                                      match rs[i]
                                      case Failure(e) => Failure(e)
                                      case Success(v) => Success(vs + [v])
  {
    assert rs[..i + 1][..i] == rs[..i];
  }

  /** Grouping one more entry. */
  lemma GroupSnoc(pairs: seq<(string, string)>, p: (string, string))
    ensures Group(pairs + [p]) == AddPair(Group(pairs), p)
  {
    assert (pairs + [p])[..|pairs|] == pairs;
  }

  /** Once a prefix of the results fails to collect, so does every longer prefix. */
  lemma {:induction false} FailureSticks<T, E>(rs: seq<Result<T, E>>, n: nat)
    requires n <= |rs| && Collect(rs[..n]).Failure?
    ensures Collect(rs).Failure?
    ensures Collect(rs).error == Collect(rs[..n]).error
    decreases |rs| - n
  {
    if n == |rs| {
      assert rs[..n] == rs;
    } else {
      assert rs[..n + 1][..n] == rs[..n];
      FailureSticks(rs, n + 1);
    }
  }
}
