/** Repeated keys collect into lists, with and without empty brackets; quotes around a key are dropped. */
module QueryLists {
  import opened Common
  import opened QueryParser
  import opened QueryRoundTrip

  /** The same key once per text. */
  function Repeated(key: string, texts: seq<string>): (pairs: seq<(string, string)>)
    ensures |pairs| == |texts|
    ensures forall i :: 0 <= i < |texts| ==> pairs[i] == (key, texts[i])
  {
    seq(|texts|, i requires 0 <= i < |texts| => (key, texts[i]))
  }

  /** No text is a number that `int()` refuses where it is asked. */
  predicate Readable(texts: seq<string>, bracketed: bool) {
    forall i :: 0 <= i < |texts| ==> ToValueText(texts[i], bracketed).Ok?
  }

  function ReadTexts(texts: seq<string>, bracketed: bool): (r: seq<Value>)
    requires Readable(texts, bracketed)
    ensures |r| == |texts|
    ensures forall i :: 0 <= i < |texts| ==> Ok(r[i]) == ToValueText(texts[i], bracketed)
  {
    seq(|texts|, i requires 0 <= i < |texts| => ToValueText(texts[i], bracketed).value)
  }

  /** One value stays alone, several become a list. */
  function Collected(values: seq<Value>): Value
    requires values != []
  {
    if |values| == 1 then values[0] else List(values)
  }

  ghost predicate Scalars(values: seq<Value>) {
    forall v :: v in values ==> v.Str? || v.Int?
  }

  function UnderKey(k: Key, values: seq<Value>): (r: seq<(Key, Value)>)
    ensures |r| == |values|
    ensures forall i :: 0 <= i < |r| ==> r[i] == (k, values[i])
  {
    seq(|values|, i requires 0 <= i < |values| => (k, values[i]))
  }

  lemma OneCollected(k: Key, values: seq<Value>, v: Value)
    requires values != [] && Scalars(values + [v])
    ensures Merge(Dict([(k, Collected(values))]), k, v) == Ok(Dict([(k, Collected(values + [v]))]))
  {
    var items := [(k, Collected(values))];
    assert items[0].0 == k;
    assert v in values + [v] && values[0] in values + [v];
    assert items[0 := (k, Collected(values + [v]))] == [(k, Collected(values + [v]))];
    if |values| == 1 {
      assert [values[0], v] == values + [v];
    }
  }

  lemma {:induction false} AllCollected(k: Key, before: seq<Value>, more: seq<Value>)
    requires before != [] && Scalars(before + more)
    ensures MergeAll(Dict([(k, Collected(before))]), UnderKey(k, more)) == Ok(Dict([(k, Collected(before + more))]))
    decreases |more|
  {
    if more == [] {
      assert before + more == before;
    } else {
      var next := before + [more[0]];
      assert next + more[1..] == before + more;
      assert forall v :: v in next ==> v in before + more;
      OneCollected(k, before, more[0]);
      AllCollected(k, next, more[1..]);
      assert UnderKey(k, more)[1..] == UnderKey(k, more[1..]);
    }
  }

  /** Merging values under one key, from nothing, collects them in order. */
  lemma KeyCollects(k: Key, values: seq<Value>)
    requires values != [] && Scalars(values)
    ensures MergeAll(Dict([]), UnderKey(k, values)) == Ok(Dict([(k, Collected(values))]))
  {
    var none: seq<(Key, Value)> := [];
    assert none + [(k, values[0])] == [(k, values[0])];
    assert Merge(Dict(none), k, values[0]) == Ok(Dict([(k, values[0])]));
    assert [values[0]] + values[1..] == values;
    AllCollected(k, [values[0]], values[1..]);
    assert UnderKey(k, values)[1..] == UnderKey(k, values[1..]);
  }

  lemma EmptyBracketsParse(text: string)
    ensures ParserHelper("[]", text)
            == var v := ToValueText(text, true); if v.Ok? then Ok((StrKey(""), v.value)) else Err(v.error)
  {
    assert Find("[]", '[', 0) == 0 && Find("[]", ']', 0) == 1;
    assert Find("[]", '[', 1) == -1;
    assert !HasGroups("[]", 1, 1);
  }

  /** The branch of one pair. */
  function BranchOf(name: string, bracketed: bool, v: Value): (Key, Value) {
    (StrKey(name), if bracketed then Dict([(StrKey(""), v)]) else v)
  }

  function KeyOf(name: string, bracketed: bool): string {
    if bracketed then name + "[]" else name
  }

  lemma RepeatedKeyParses(name: string, bracketed: bool, text: string)
    requires GoodName(name)
    ensures ParserHelper(KeyOf(name, bracketed), text)
            == var v := ToValueText(text, bracketed);
               if v.Ok? then Ok(BranchOf(name, bracketed, v.value)) else Err(v.error)
  {
    if bracketed {
      var key := name + "[]";
      assert forall i :: 0 <= i < |name| ==> key[i] == name[i];
      assert key[|name|] == '[' && key[|name|..] == "[]" && key[..|name|] == name;
      assert Find(key, '[', 0) == |name|;
      EmptyBracketsParse(text);
    } else {
      assert Find(name, '[', 0) == -1;
    }
  }

  function BranchesOf(name: string, bracketed: bool, values: seq<Value>): (r: seq<(Key, Value)>)
    ensures |r| == |values|
    ensures forall i :: 0 <= i < |r| ==> r[i] == BranchOf(name, bracketed, values[i])
  {
    seq(|values|, i requires 0 <= i < |values| => BranchOf(name, bracketed, values[i]))
  }

  /** The parsed tree before normalising. */
  function TreeOf(name: string, bracketed: bool, values: seq<Value>): seq<(Key, Value)> {
    if values == [] then [] else [BranchOf(name, bracketed, Collected(values))]
  }

  lemma BranchesCollect(name: string, bracketed: bool, values: seq<Value>)
    requires Scalars(values)
    ensures MergeAll(Dict([]), BranchesOf(name, bracketed, values)) == Ok(Dict(TreeOf(name, bracketed, values)))
  {
    var empty := StrKey("");
    if values != [] {
      if bracketed {
        assert BranchesOf(name, bracketed, values) == Lift(StrKey(name), UnderKey(empty, values));
        KeyCollects(empty, values);
        MergeBelowNewKey([], StrKey(name), UnderKey(empty, values));
        assert [] + TreeOf(name, bracketed, values) == TreeOf(name, bracketed, values);
      } else {
        assert BranchesOf(name, bracketed, values) == UnderKey(StrKey(name), values);
        KeyCollects(StrKey(name), values);
      }
    }
  }

  lemma ReadablePairsMerge(name: string, bracketed: bool, texts: seq<string>)
    requires GoodName(name) && Readable(texts, bracketed)
    ensures ParseBranches(Dict([]), Repeated(KeyOf(name, bracketed), texts))
            == Ok(Dict(TreeOf(name, bracketed, ReadTexts(texts, bracketed))))
  {
    var pairs, values := Repeated(KeyOf(name, bracketed), texts), ReadTexts(texts, bracketed);
    forall i | 0 <= i < |texts|
      ensures ParserHelper(pairs[i].0, pairs[i].1) == Ok(BranchesOf(name, bracketed, values)[i])
    {
      RepeatedKeyParses(name, bracketed, texts[i]);
    }
    ParsedPairsMerge(Dict([]), pairs, BranchesOf(name, bracketed, values));
    BranchesCollect(name, bracketed, values);
  }

  lemma {:induction false} ParseConcat(t: Value, a: seq<(string, string)>, b: seq<(string, string)>)
    ensures ParseBranches(t, a + b)
            == var first := ParseBranches(t, a); if first.Ok? then ParseBranches(first.value, b) else first
    decreases |a|
  {
    if a == [] {
      assert a + b == b;
    } else {
      assert (a + b)[1..] == a[1..] + b;
      var branch := ParserHelper(a[0].0, a[0].1);
      if branch.Ok? && Merge(t, branch.value.0, branch.value.1).Ok? {
        ParseConcat(Merge(t, branch.value.0, branch.value.1).value, a[1..], b);
      }
    }
  }

  /** The first text that `int()` refuses ends the parse. */
  lemma FirstUnreadable(name: string, bracketed: bool, texts: seq<string>, i: nat)
    requires GoodName(name) && i < |texts| && Readable(texts[..i], bracketed) && ToValueText(texts[i], bracketed).Err?
    ensures ParseBranches(Dict([]), Repeated(KeyOf(name, bracketed), texts)) == Err(BadNumber)
  {
    var pairs := Repeated(KeyOf(name, bracketed), texts);
    ReadablePairsMerge(name, bracketed, texts[..i]);
    RepeatedKeyParses(name, bracketed, texts[i]);
    assert pairs[..i] == Repeated(KeyOf(name, bracketed), texts[..i]);
    assert pairs == pairs[..i] + pairs[i..];
    ParseConcat(Dict([]), pairs[..i], pairs[i..]);
  }

  lemma {:induction false} UnreadableFails(name: string, bracketed: bool, texts: seq<string>, i: nat)
    requires GoodName(name) && i < |texts| && ToValueText(texts[i], bracketed).Err?
    ensures ParseBranches(Dict([]), Repeated(KeyOf(name, bracketed), texts)) == Err(BadNumber)
    decreases i
  {
    if k :| 0 <= k < i && ToValueText(texts[k], bracketed).Err? {
      UnreadableFails(name, bracketed, texts, k);
    } else {
      FirstUnreadable(name, bracketed, texts, i);
    }
  }

  /**
   A repeated key, plain or with empty brackets, gives its values in order: one alone, several as a list. It fails
   exactly when empty brackets meet a number of digits that `int()` refuses.
   */
  lemma RepeatedKeysCollect(name: string, bracketed: bool, texts: seq<string>)
    requires GoodName(name) && texts != [] && forall i :: 0 <= i < |texts| ==> texts[i] != ""
    ensures ParseQuery(Repeated(KeyOf(name, bracketed), texts))
            == if Readable(texts, bracketed) then Ok(Dict([(StrKey(name), Collected(ReadTexts(texts, bracketed)))]))
               else Err(BadNumber)
  {
    NothingBlank(Repeated(KeyOf(name, bracketed), texts));
    if Readable(texts, bracketed) {
      ReadablePairsMerge(name, bracketed, texts);
      ParsedIsFilled(Dict([]), Repeated(KeyOf(name, bracketed), texts));
      CollectedNormalizes(name, bracketed, ReadTexts(texts, bracketed));
    } else {
      var i :| 0 <= i < |texts| && ToValueText(texts[i], bracketed).Err?;
      UnreadableFails(name, bracketed, texts, i);
    }
  }

  lemma CollectedNormalizes(name: string, bracketed: bool, values: seq<Value>)
    requires values != [] && Scalars(values) && FilledItems(TreeOf(name, bracketed, values))
    ensures NormalizeItems(TreeOf(name, bracketed, values)) == [(StrKey(name), Collected(values))]
  {
    assert values[0] in values;
    assert TreeOf(name, bracketed, values)[1..] == [];
  }

  /** Quotes around a bracketed key are not part of it. */
  lemma QuotesAreDropped(text: string, rest: string)
    requires PlainText(text)
    ensures var s := "['" + text + "']" + rest; !HasVariableName(s) && GetKey(s) == Some(text)
  {
    var s := "['" + text + "']" + rest;
    assert s[2..|text| + 2] == text && s[1] == '\'' && s[|text| + 2] == '\'' && s[|text| + 3] == ']';
    assert forall i :: 2 <= i < |text| + 2 ==> s[i] == text[i - 2];
    assert Find(s, '[', 0) == 0 && Find(s, ']', 0) == |text| + 3;
  }

  function Numbers(ns: seq<int>): (r: seq<Value>)
    ensures |r| == |ns| && forall i :: 0 <= i < |r| ==> r[i] == Int(ns[i])
  {
    seq(|ns|, i requires 0 <= i < |ns| => Int(ns[i]))
  }

  function Texts(texts: seq<string>): (r: seq<Value>)
    ensures |r| == |texts| && forall i :: 0 <= i < |r| ==> r[i] == Str(texts[i])
  {
    seq(|texts|, i requires 0 <= i < |texts| => Str(texts[i]))
  }

  /** Printed numbers under empty brackets come back as numbers; under a plain key every text stays text. */
  lemma NumbersUnderBrackets(name: string, ns: seq<int>, texts: seq<string>)
    requires GoodName(name) && texts != [] && forall i :: 0 <= i < |texts| ==> texts[i] != ""
    requires |ns| == |texts| && forall i :: 0 <= i < |texts| ==> texts[i] == KeyText(IntKey(ns[i]))
    ensures ParseQuery(Repeated(name + "[]", texts)) == Ok(Dict([(StrKey(name), Collected(Numbers(ns)))]))
    ensures ParseQuery(Repeated(name, texts)) == Ok(Dict([(StrKey(name), Collected(Texts(texts)))]))
  {
    forall i | 0 <= i < |texts|
      ensures ToValueText(texts[i], true) == Ok(Int(ns[i]))
    {
      SignedDecimalParses(ns[i]);
    }
    RepeatedKeysCollect(name, true, texts);
    RepeatedKeysCollect(name, false, texts);
    assert ReadTexts(texts, true) == Numbers(ns);
    assert ReadTexts(texts, false) == Texts(texts);
  }

  /** Text that is no number stays text under empty brackets as well. */
  lemma TextsUnderBrackets(name: string, texts: seq<string>)
    requires GoodName(name) && texts != [] && forall i :: 0 <= i < |texts| ==> texts[i] != "" && !IsNumber(texts[i])
    ensures ParseQuery(Repeated(name + "[]", texts)) == Ok(Dict([(StrKey(name), Collected(Texts(texts)))]))
  {
    RepeatedKeysCollect(name, true, texts);
    assert ReadTexts(texts, true) == Texts(texts);
  }

  /** A pair with a blank value might as well not be there. */
  lemma BlanksAreDropped(before: seq<(string, string)>, key: string, more: seq<(string, string)>)
    ensures ParseQuery(before + [(key, "")] + more) == ParseQuery(before + more)
  {
    BlankDropped(before, key, more);
  }

  lemma BlankDropped(before: seq<(string, string)>, key: string, more: seq<(string, string)>)
    ensures DropBlank(before + [(key, "")] + more) == DropBlank(before + more)
  {
    FilterConcat(before + [(key, "")], more, NonBlank());
    FilterConcat(before, [(key, "")], NonBlank());
    FilterConcat(before, more, NonBlank());
    assert Filter(before, NonBlank()) + [] == Filter(before, NonBlank());
  }
}
