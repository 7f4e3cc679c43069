/**
 * A parsed configuration document (`ParsedConfig`): reading it from lines, querying the
 * values of a directive, and replacing every occurrence of a directive by a block of
 * new values.
 */
module Config {
  import opened Base
  import opened Text
  import opened Line

  /** A document is the list of its records, one per line of the file. */
  type Doc = seq<Item>

  /** The records the query and the replacement look at: directives called `name`. */
  predicate IsMatch(it: Item, name: string) {
    it.Conf? && it.name == name
  }

  predicate NoMatch(doc: Doc, name: string) {
    forall i | 0 <= i < |doc| :: !IsMatch(doc[i], name)
  }

  /** `read`: every line becomes one record, by `add_line`, in file order. */
  function Read(lines: seq<string>): (doc: Doc)
    ensures |doc| == |lines|
    ensures forall i | 0 <= i < |lines| :: doc[i] == ParseLine(lines[i])
  {
    if lines == [] then []
    else
      var pre := lines[..|lines| - 1];
      assert forall i | 0 <= i < |pre| :: pre[i] == lines[i];
      Read(pre) + [ParseLine(lines[|lines| - 1])]
  }

  /** Reading a file's text: its lines, as iterating over the open file yields them, each parsed. */
  function ReadText(text: string): Doc {
    Read(FileLines(text))
  }

  /** Reading two runs of lines one after the other is reading each and appending. */
  lemma {:induction false} ReadAppend(a: seq<string>, b: seq<string>)
    ensures Read(a + b) == Read(a) + Read(b)
    decreases |b|
  {
    if b == [] {
      assert a + b == a;
    } else {
      var b' := b[..|b| - 1];
      assert (a + b)[..|a + b| - 1] == a + b';
      ReadAppend(a, b');
    }
  }

  /**
   * The indexes of the records matching `name`, ascending: `val_indexes` of
   * `replace_config_values` in reverse.
   */
  function MatchIndexes(doc: Doc, name: string): seq<nat> {
    if doc == [] then []
    else MatchIndexes(doc[..|doc| - 1], name) + (if IsMatch(doc[|doc| - 1], name) then [|doc| - 1] else [])
  }

  /** Every match index points at a match. */
  lemma {:induction false} MatchIndexesSound(doc: Doc, name: string)
    ensures forall k | 0 <= k < |MatchIndexes(doc, name)| ::
              MatchIndexes(doc, name)[k] < |doc| && IsMatch(doc[MatchIndexes(doc, name)[k]], name)
  {
    if doc != [] {
      var pre := doc[..|doc| - 1];
      MatchIndexesSound(pre, name);
      assert forall i | 0 <= i < |pre| :: pre[i] == doc[i];
    }
  }

  /** Every match is listed. */
  lemma {:induction false} MatchIndexesComplete(doc: Doc, name: string)
    ensures forall i | 0 <= i < |doc| && IsMatch(doc[i], name) :: i in MatchIndexes(doc, name)
  {
    if doc != [] {
      var pre := doc[..|doc| - 1];
      MatchIndexesComplete(pre, name);
      assert forall i | 0 <= i < |pre| :: pre[i] == doc[i];
    }
  }

  /** The match indexes are strictly ascending, so they list the matches in document order. */
  lemma {:induction false} MatchIndexesAscending(doc: Doc, name: string)
    ensures forall k, l | 0 <= k < l < |MatchIndexes(doc, name)| ::
              MatchIndexes(doc, name)[k] < MatchIndexes(doc, name)[l]
  {
    if doc != [] {
      var pre := doc[..|doc| - 1];
      MatchIndexesAscending(pre, name);
      MatchIndexesSound(pre, name);
      var ix, ix' := MatchIndexes(doc, name), MatchIndexes(pre, name);
      assert ix == ix' + (if IsMatch(doc[|doc| - 1], name) then [|doc| - 1] else []);
      forall k, l | 0 <= k < l < |ix|
        ensures ix[k] < ix[l]
      {
        assert ix[k] == ix'[k] < |pre|;
        if l < |ix'| {
          assert ix[l] == ix'[l];
        } else {
          assert ix[l] == |pre|;
        }
      }
    }
  }

  /** How many records match `name`. */
  function Count(doc: Doc, name: string): nat {
    |MatchIndexes(doc, name)|
  }

  /** A document has no match exactly when its list of match indexes is empty. */
  lemma CountZero(doc: Doc, name: string)
    ensures Count(doc, name) == 0 <==> NoMatch(doc, name)
  {
    if Count(doc, name) == 0 {
      MatchIndexesComplete(doc, name);
    } else {
      MatchIndexesSound(doc, name);
      var ix := MatchIndexes(doc, name);
      assert IsMatch(doc[ix[0]], name);
    }
  }

  /**
   * `get_config_values`: the values of the directives called `name`, in document order,
   * one per match index.
   */
  function GetConfigValues(doc: Doc, name: string): seq<string> {
    if doc == [] then []
    else
      var last := doc[|doc| - 1];
      GetConfigValues(doc[..|doc| - 1], name) + (if IsMatch(last, name) then [last.value] else [])
  }

  /** The query returns one value per match, the value of the record at that index. */
  lemma {:induction false} GetConfigValuesAtMatches(doc: Doc, name: string)
    ensures |GetConfigValues(doc, name)| == |MatchIndexes(doc, name)|
    ensures forall k | 0 <= k < |GetConfigValues(doc, name)| ::
              && MatchIndexes(doc, name)[k] < |doc|
              && IsMatch(doc[MatchIndexes(doc, name)[k]], name)
              && GetConfigValues(doc, name)[k] == doc[MatchIndexes(doc, name)[k]].value
  {
    if doc != [] {
      var pre, last := doc[..|doc| - 1], doc[|doc| - 1];
      GetConfigValuesAtMatches(pre, name);
      MatchIndexesSound(pre, name);
      var vals, ix := GetConfigValues(doc, name), MatchIndexes(doc, name);
      var vals', ix' := GetConfigValues(pre, name), MatchIndexes(pre, name);
      assert ix == ix' + (if IsMatch(last, name) then [|doc| - 1] else []);
      assert vals == vals' + (if IsMatch(last, name) then [last.value] else []);
      forall k | 0 <= k < |vals|
        ensures vals[k] == doc[ix[k]].value
      {
        if k < |vals'| {
          assert ix[k] == ix'[k] && pre[ix'[k]] == doc[ix'[k]];
        }
      }
    }
  }

  /** The query distributes over appending documents. */
  lemma {:induction false} GetConfigValuesAppend(a: Doc, b: Doc, name: string)
    ensures GetConfigValues(a + b, name) == GetConfigValues(a, name) + GetConfigValues(b, name)
    decreases |b|
  {
    if b == [] {
      assert a + b == a;
    } else {
      var b' := b[..|b| - 1];
      assert (a + b)[..|a + b| - 1] == a + b';
      GetConfigValuesAppend(a, b', name);
    }
  }

  /** A document without matches yields no values. */
  lemma {:induction false} GetConfigValuesNone(doc: Doc, name: string)
    requires NoMatch(doc, name)
    ensures GetConfigValues(doc, name) == []
  {
    CountZero(doc, name);
    GetConfigValuesAtMatches(doc, name);
  }

  /** The document with every directive called `name` deleted, the rest in order. */
  function RemoveMatches(doc: Doc, name: string): Doc {
    if doc == [] then []
    else
      var last := doc[|doc| - 1];
      RemoveMatches(doc[..|doc| - 1], name) + (if IsMatch(last, name) then [] else [last])
  }

  /** Deleting leaves no match. */
  lemma {:induction false} RemoveMatchesNoMatch(doc: Doc, name: string)
    ensures NoMatch(RemoveMatches(doc, name), name)
  {
    if doc != [] {
      RemoveMatchesNoMatch(doc[..|doc| - 1], name);
    }
  }

  /** Deleting shortens the document by the number of matches. */
  lemma {:induction false} RemoveMatchesLength(doc: Doc, name: string)
    ensures |RemoveMatches(doc, name)| == |doc| - Count(doc, name)
  {
    if doc != [] {
      RemoveMatchesLength(doc[..|doc| - 1], name);
    }
  }

  /** Deleting keeps exactly the records that do not match. */
  lemma {:induction false} RemoveMatchesKeeps(doc: Doc, name: string)
    ensures forall it :: it in RemoveMatches(doc, name) <==> it in doc && !IsMatch(it, name)
  {
    if doc != [] {
      var pre := doc[..|doc| - 1];
      assert doc == pre + [doc[|doc| - 1]];
      RemoveMatchesKeeps(pre, name);
    }
  }

  /** Deleting distributes over appending documents. */
  lemma {:induction false} RemoveMatchesAppend(a: Doc, b: Doc, name: string)
    ensures RemoveMatches(a + b, name) == RemoveMatches(a, name) + RemoveMatches(b, name)
    decreases |b|
  {
    if b == [] {
      assert a + b == a;
    } else {
      var b' := b[..|b| - 1];
      assert (a + b)[..|a + b| - 1] == a + b';
      RemoveMatchesAppend(a, b', name);
    }
  }

  /** Deleting from a document without matches changes nothing. */
  lemma {:induction false} RemoveMatchesNone(doc: Doc, name: string)
    requires NoMatch(doc, name)
    ensures RemoveMatches(doc, name) == doc
  {
    if doc != [] {
      var pre := doc[..|doc| - 1];
      assert doc == pre + [doc[|doc| - 1]];
      RemoveMatchesNone(pre, name);
    }
  }

  /** Deleting the matches of `name` keeps the values of every other name. */
  lemma {:induction false} RemoveMatchesKeepsOthers(doc: Doc, name: string, other: string)
    requires other != name
    ensures GetConfigValues(RemoveMatches(doc, name), other) == GetConfigValues(doc, other)
  {
    if doc != [] {
      var pre := doc[..|doc| - 1];
      var last := doc[|doc| - 1];
      RemoveMatchesKeepsOthers(pre, name, other);
      var tail := if IsMatch(last, name) then [] else [last];
      GetConfigValuesAppend(RemoveMatches(pre, name), tail, other);
      if IsMatch(last, name) {
        assert GetConfigValues(tail, other) == [];
      }
    }
  }

  /** Index of the first directive called `name`, or the length of the document when there is none. */
  function FirstMatch(doc: Doc, name: string): (p: nat)
    ensures p <= |doc|
    ensures forall i | 0 <= i < p :: !IsMatch(doc[i], name)
    ensures p < |doc| ==> IsMatch(doc[p], name)
  {
    if doc == [] || IsMatch(doc[0], name) then 0 else 1 + FirstMatch(doc[1..], name)
  }

  /** The first match is the smallest match index, and the end of the document when nothing matches. */
  lemma FirstMatchIsSmallestIndex(doc: Doc, name: string)
    ensures Count(doc, name) == 0 ==> FirstMatch(doc, name) == |doc|
    ensures Count(doc, name) > 0 ==> FirstMatch(doc, name) == MatchIndexes(doc, name)[0]
  {
    var p := FirstMatch(doc, name);
    var ix := MatchIndexes(doc, name);
    if |ix| == 0 {
      CountZero(doc, name);
    } else {
      MatchIndexesSound(doc, name);
      MatchIndexesComplete(doc, name);
      assert IsMatch(doc[ix[0]], name);
      assert p <= ix[0];
      assert p in ix;
      MatchIndexesAscending(doc, name);
    }
  }

  /** Python's `values` argument: absent, a single string, or a list of strings. */
  datatype Values = Absent | Scalar(value: string) | Many(values: seq<string>)

  /** Python's `not values`: `None`, the empty string and the empty list. */
  predicate IsFalsy(values: Values) {
    values == Absent || values == Scalar([]) || values == Many([])
  }

  /** The values to insert: none for a falsy argument, a scalar as a one-element list. */
  function ValueList(values: Values): (vals: seq<string>)
    ensures vals == [] <==> IsFalsy(values)
    ensures values.Scalar? && !IsFalsy(values) ==> vals == [values.value]
    ensures values.Many? ==> vals == values.values
  {
    match values
    case Absent => []
    case Scalar(v) => if v == [] then [] else [v]
    case Many(vs) => vs
  }

  /** The inserted block: one comment-free directive called `name` per value, in order. */
  function NewItems(name: string, vals: seq<string>): (items: Doc)
    ensures |items| == |vals|
    ensures forall k | 0 <= k < |vals| :: items[k] == Conf(name, vals[k], None)
  {
    if vals == [] then [] else NewItems(name, vals[..|vals| - 1]) + [Conf(name, vals[|vals| - 1], None)]
  }

  /** The inserted block holds exactly the inserted values under `name`. */
  lemma {:induction false} NewItemsValues(name: string, vals: seq<string>)
    ensures GetConfigValues(NewItems(name, vals), name) == vals
    ensures forall other | other != name :: GetConfigValues(NewItems(name, vals), other) == []
    decreases |vals|
  {
    if vals != [] {
      var vals' := vals[..|vals| - 1];
      var items := NewItems(name, vals);
      assert items[..|items| - 1] == NewItems(name, vals');
      NewItemsValues(name, vals');
      assert vals == vals' + [vals[|vals| - 1]];
    }
  }

  /**
   * `replace_config_values`: unless the values are falsy, delete every directive called
   * `name` and insert the new block where the first of them was, or at the end.
   */
  function ReplaceConfigValues(doc: Doc, name: string, values: Values): (r: Doc)
    ensures IsFalsy(values) ==> r == doc
  {
    var vals := ValueList(values);
    if vals == [] then doc
    else
      var p := FirstMatch(doc, name);
      doc[..p] + NewItems(name, vals) + RemoveMatches(doc[p..], name)
  }

  /** Splitting the document at the first match: the part before it has no match. */
  lemma SplitAtFirstMatch(doc: Doc, name: string)
    ensures var p := FirstMatch(doc, name);
            RemoveMatches(doc, name) == doc[..p] + RemoveMatches(doc[p..], name)
  {
    var p := FirstMatch(doc, name);
    assert doc == doc[..p] + doc[p..];
    RemoveMatchesAppend(doc[..p], doc[p..], name);
    RemoveMatchesNone(doc[..p], name);
  }

  /** After a replacement the query on `name` returns the supplied values, in order. */
  lemma ReplaceSetsValues(doc: Doc, name: string, values: Values)
    requires !IsFalsy(values)
    ensures GetConfigValues(ReplaceConfigValues(doc, name, values), name) == ValueList(values)
  {
    var vals := ValueList(values);
    var p := FirstMatch(doc, name);
    var before, block, after := doc[..p], NewItems(name, vals), RemoveMatches(doc[p..], name);
    assert ReplaceConfigValues(doc, name, values) == before + block + after;
    assert GetConfigValues(before, name) == [] by { GetConfigValuesNone(before, name); }
    assert GetConfigValues(after, name) == [] by {
      RemoveMatchesNoMatch(doc[p..], name);
      GetConfigValuesNone(after, name);
    }
    assert GetConfigValues(block, name) == vals by { NewItemsValues(name, vals); }
    GetConfigValuesOfThree(before, block, after, name);
    assert [] + vals + [] == vals;
  }

  /** A replacement on `name` leaves the values of every other name as they were. */
  lemma ReplaceKeepsOthers(doc: Doc, name: string, values: Values, other: string)
    requires other != name
    ensures GetConfigValues(ReplaceConfigValues(doc, name, values), other) == GetConfigValues(doc, other)
  {
    if !IsFalsy(values) {
      var vals := ValueList(values);
      var p := FirstMatch(doc, name);
      var before, block, after := doc[..p], NewItems(name, vals), RemoveMatches(doc[p..], name);
      assert ReplaceConfigValues(doc, name, values) == before + block + after;
      assert GetConfigValues(block, other) == [] by { NewItemsValues(name, vals); }
      GetConfigValuesOfThree(before, block, after, other);
      assert GetConfigValues(before, other) + [] + GetConfigValues(after, other)
          == GetConfigValues(before + after, other) by {
        GetConfigValuesAppend(before, after, other);
      }
      assert before + after == RemoveMatches(doc, name) by { SplitAtFirstMatch(doc, name); }
      RemoveMatchesKeepsOthers(doc, name, other);
    }
  }

  /** The query over three glued pieces. */
  lemma GetConfigValuesOfThree(a: Doc, b: Doc, c: Doc, name: string)
    ensures GetConfigValues(a + b + c, name)
         == GetConfigValues(a, name) + GetConfigValues(b, name) + GetConfigValues(c, name)
  {
    GetConfigValuesAppend(a + b, c, name);
    GetConfigValuesAppend(a, b, name);
  }

  /** The length changes by the number of values minus the number of matches. */
  lemma ReplaceLength(doc: Doc, name: string, values: Values)
    requires !IsFalsy(values)
    ensures |ReplaceConfigValues(doc, name, values)| == |doc| - Count(doc, name) + |ValueList(values)|
  {
    SplitAtFirstMatch(doc, name);
    RemoveMatchesLength(doc, name);
  }

  /**
   * The new block sits at the first match (see `FirstMatchIsSmallestIndex`: the first
   * original occurrence, or the end when there is none) and is the new comment-free
   * directives in the order supplied.
   */
  lemma ReplaceBlock(doc: Doc, name: string, values: Values)
    requires !IsFalsy(values)
    ensures var r := ReplaceConfigValues(doc, name, values);
            var p, n := FirstMatch(doc, name), |ValueList(values)|;
            p + n <= |r| && r[p..p + n] == NewItems(name, ValueList(values))
  {
    var p := FirstMatch(doc, name);
    ThreeParts(doc[..p], NewItems(name, ValueList(values)), RemoveMatches(doc[p..], name));
  }

  /** Around the new block lies the old document with every match deleted, in its old order. */
  lemma ReplaceFrame(doc: Doc, name: string, values: Values)
    requires !IsFalsy(values)
    ensures var r := ReplaceConfigValues(doc, name, values);
            var p, n := FirstMatch(doc, name), |ValueList(values)|;
            p + n <= |r| && r[..p] + r[p + n..] == RemoveMatches(doc, name)
  {
    var p := FirstMatch(doc, name);
    SplitAtFirstMatch(doc, name);
    ThreeParts(doc[..p], NewItems(name, ValueList(values)), RemoveMatches(doc[p..], name));
  }

  /** The middle of three glued pieces, and what is left around it. */
  lemma ThreeParts<T>(a: seq<T>, b: seq<T>, c: seq<T>)
    ensures (a + b + c)[|a|..|a| + |b|] == b
    ensures (a + b + c)[..|a|] + (a + b + c)[|a| + |b|..] == a + c
  {
    var s := a + b + c;
    assert s[..|a|] == a;
    assert s[|a| + |b|..] == c;
  }

  /** A sequence in reverse order. */
  function Reverse<T>(s: seq<T>): (r: seq<T>)
    ensures |r| == |s|
    ensures forall i | 0 <= i < |s| :: r[i] == s[|s| - 1 - i]
  {
    if s == [] then [] else Reverse(s[1..]) + [s[0]]
  }

  /** Putting an element in front of a sequence puts it at the back of its reverse. */
  lemma ReverseCons<T>(x: T, s: seq<T>)
    ensures Reverse([x] + s) == Reverse(s) + [x]
  {
    assert ([x] + s)[1..] == s;
  }

  /** The match indexes of one more record of the document. */
  lemma MatchIndexesSnoc(doc: Doc, name: string, i: nat)
    requires i < |doc|
    ensures MatchIndexes(doc[..i + 1], name)
         == MatchIndexes(doc[..i], name) + (if IsMatch(doc[i], name) then [i] else [])
  {
    assert doc[..i + 1][..i] == doc[..i];
  }

  /**
   * The last match of a document: everything after it is free of matches, and the
   * matches before it are the other match indexes.
   */
  lemma {:induction false} LastMatch(d: Doc, name: string)
    requires Count(d, name) > 0
    ensures var ix := MatchIndexes(d, name);
            var v := ix[|ix| - 1];
            && v < |d| && IsMatch(d[v], name)
            && MatchIndexes(d[..v], name) == ix[..|ix| - 1]
            && NoMatch(d[v + 1..], name)
  {
    var pre, last := d[..|d| - 1], d[|d| - 1];
    var ix, ix' := MatchIndexes(d, name), MatchIndexes(pre, name);
    if IsMatch(last, name) {
      assert ix == ix' + [|d| - 1];
      assert d[..|d| - 1] == pre;
    } else {
      assert ix == ix';
      LastMatch(pre, name);
      var v := ix[|ix| - 1];
      assert pre[..v] == d[..v];
      assert NoMatch(d[v + 1..], name) by {
        var m, m' := d[v + 1..], pre[v + 1..];
        assert |m| == |m'| + 1;
        assert forall i | 0 <= i < |m'| :: m[i] == m'[i];
        assert m[|m'|] == last;
      }
    }
  }

  /**
   * One deletion of `replace_config_values`: with the matches at or after `c` already
   * deleted, deleting the last match before `c` moves the cut to that match.
   */
  lemma DeleteStep(doc: Doc, name: string, c: nat, cur: Doc)
    requires c <= |doc| && Count(doc[..c], name) > 0
    requires cur == doc[..c] + RemoveMatches(doc[c..], name)
    ensures var ix := MatchIndexes(doc[..c], name);
            var v := ix[|ix| - 1];
            && v < c
            && MatchIndexes(doc[..v], name) == ix[..|ix| - 1]
            && cur[..v] + cur[v + 1..] == doc[..v] + RemoveMatches(doc[v..], name)
  {
    var d := doc[..c];
    LastMatch(d, name);
    var ix := MatchIndexes(d, name);
    var v := ix[|ix| - 1];
    var mid := d[v + 1..];
    assert d[..v] == doc[..v];
    DeleteAt(d, RemoveMatches(doc[c..], name), v);
    assert doc[v..] == [doc[v]] + mid + doc[c..];
    RemoveMatchesDropMatch(doc[v], mid, doc[c..], name);
  }

  /** Deleting position `v` of `d + tail`, for `v` inside `d`. */
  lemma DeleteAt<T>(d: seq<T>, tail: seq<T>, v: nat)
    requires v < |d|
    ensures (d + tail)[..v] + (d + tail)[v + 1..] == d[..v] + (d[v + 1..] + tail)
  {
    var s := d + tail;
    assert s[..v] == d[..v];
    assert s[v + 1..] == d[v + 1..] + tail;
  }

  /** Deleting matches from a match, then match-free records, then the rest. */
  lemma RemoveMatchesDropMatch(x: Item, mid: Doc, rest: Doc, name: string)
    requires IsMatch(x, name) && NoMatch(mid, name)
    ensures RemoveMatches([x] + mid + rest, name) == mid + RemoveMatches(rest, name)
  {
    RemoveMatchesAppend([x] + mid, rest, name);
    RemoveMatchesAppend([x], mid, name);
    RemoveMatchesNone(mid, name);
    assert RemoveMatches([x], name) == [] by {
      assert [x][..0] == [];
    }
    assert [] + mid == mid;
  }

  /** Inserting `x` at the front of the middle piece of three. */
  lemma InsertAt<T>(a: seq<T>, b: seq<T>, c: seq<T>, x: T)
    ensures (a + b + c)[..|a|] + [x] + (a + b + c)[|a|..] == a + ([x] + b) + c
  {
    var s := a + b + c;
    assert s[..|a|] == a;
    assert s[|a|..] == b + c;
  }

  /** The inserted block, built from the back one value at a time. */
  lemma NewItemsCons(name: string, vals: seq<string>, k: nat)
    requires k < |vals|
    ensures NewItems(name, vals[k..]) == [Conf(name, vals[k], None)] + NewItems(name, vals[k + 1..])
  {
    var a, b := NewItems(name, vals[k..]), [Conf(name, vals[k], None)] + NewItems(name, vals[k + 1..]);
    assert |a| == |b|;
    forall i | 0 <= i < |a|
      ensures a[i] == b[i]
    {
      if i > 0 {
        assert vals[k..][i] == vals[k + 1..][i - 1];
      }
    }
  }

  /**
   * The first loop of `replace_config_values`: the match indexes, each put in front of
   * those found before it, so the list comes out in descending order.
   */
  method CollectMatchIndexes(doc: Doc, name: string) returns (valIndexes: seq<nat>)
    ensures Reverse(valIndexes) == MatchIndexes(doc, name)
  {
    valIndexes := [];
    var idx := 0;
    while idx < |doc|
      invariant idx <= |doc|
      invariant Reverse(valIndexes) == MatchIndexes(doc[..idx], name)
    {
      MatchIndexesSnoc(doc, name, idx);
      if IsMatch(doc[idx], name) {
        ReverseCons(idx, valIndexes);
        valIndexes := [idx] + valIndexes;
      }
      idx := idx + 1;
    }
    assert doc[..|doc|] == doc;
  }

  /**
   * The second loop: deleting the records at the given indexes, largest first, so that
   * no deletion moves a record still to be deleted.
   */
  method DeleteAtIndexes(doc: Doc, name: string, valIndexes: seq<nat>) returns (cur: Doc)
    requires Reverse(valIndexes) == MatchIndexes(doc, name)
    ensures cur == RemoveMatches(doc, name)
  {
    cur := doc;
    var j := 0;
    ghost var c := |doc|;
    assert doc[..c] == doc && doc[c..] == [];
    while j < |valIndexes|
      invariant j <= |valIndexes| && c <= |doc|
      invariant cur == doc[..c] + RemoveMatches(doc[c..], name)
      invariant Reverse(valIndexes[j..]) == MatchIndexes(doc[..c], name)
    {
      var v := valIndexes[j];
      assert valIndexes[j..] == [v] + valIndexes[j + 1..];
      ReverseCons(v, valIndexes[j + 1..]);
      DeleteStep(doc, name, c, cur);
      cur := cur[..v] + cur[v + 1..];
      c := v;
      j := j + 1;
    }
    assert NoMatch(doc[..c], name) by { CountZero(doc[..c], name); }
    RemoveMatchesNone(doc[..c], name);
    assert doc == doc[..c] + doc[c..];
    RemoveMatchesAppend(doc[..c], doc[c..], name);
  }

  /** The third loop: inserting the values back to front, each at the same index. */
  method InsertValues(base: Doc, p: nat, name: string, vals: seq<string>) returns (cur: Doc)
    requires p <= |base|
    ensures cur == base[..p] + NewItems(name, vals) + base[p..]
  {
    cur := base;
    var k := |vals|;
    assert vals[k..] == [] && base == base[..p] + [] + base[p..];
    while k > 0
      invariant k <= |vals|
      invariant cur == base[..p] + NewItems(name, vals[k..]) + base[p..]
    {
      k := k - 1;
      NewItemsCons(name, vals, k);
      InsertAt(base[..p], NewItems(name, vals[k + 1..]), base[p..], Conf(name, vals[k], None));
      cur := cur[..p] + [Conf(name, vals[k], None)] + cur[p..];
    }
    assert vals[0..] == vals;
  }

  /**
   * `replace_config_values` as the source does it, in place: nothing for falsy values;
   * otherwise collect the match indexes, delete them, and insert the values at the
   * last collected (smallest) index, or at the end when nothing matched.
   */
  method ReplaceConfigValuesInPlace(doc: Doc, name: string, values: Values) returns (r: Doc)
    ensures r == ReplaceConfigValues(doc, name, values)
  {
    var vals := ValueList(values);
    if vals == [] {
      return doc;
    }
    var valIndexes := CollectMatchIndexes(doc, name);
    var cur := DeleteAtIndexes(doc, name, valIndexes);
    var insertIdx := if |valIndexes| > 0 then valIndexes[|valIndexes| - 1] else |cur|;
    var p := FirstMatch(doc, name);
    assert insertIdx == p by {
      FirstMatchIsSmallestIndex(doc, name);
      if |valIndexes| == 0 {
        CountZero(doc, name);
        RemoveMatchesNone(doc, name);
      }
    }
    SplitAtFirstMatch(doc, name);
    assert cur[..p] == doc[..p] && cur[p..] == RemoveMatches(doc[p..], name);
    r := InsertValues(cur, insertIdx, name, vals);
  }
}
