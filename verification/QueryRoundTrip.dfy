/** Printing a nested object as bracketed pairs and parsing it back. */
module QueryRoundTrip {
  import opened Common
  import opened QueryParser

  /** A nested object: text, or a list or dictionary of keyed children; a list carries its indices as keys. */
  datatype Obj = Leaf(s: string) | Node(isList: bool, children: seq<(Key, Obj)>)

  predicate GoodName(s: string) {
    s != "" && !IsNumber(s) && forall i :: 0 <= i < |s| ==> s[i] != '[' && s[i] != ']' && s[i] != '\''
  }

  predicate GoodKey(k: Key) {
    match k
    case IntKey(i) => i >= 0
    case StrKey(s) => GoodName(s)
  }

  ghost predicate DistinctKeys(children: seq<(Key, Obj)>) {
    forall i, j :: 0 <= i < j < |children| ==> children[i].0 != children[j].0
  }

  /** List children are numbered 0, 1, ...; dictionary children have distinct names. */
  ghost predicate GoodChildren(isList: bool, children: seq<(Key, Obj)>) {
    DistinctKeys(children)
    && forall i :: 0 <= i < |children| ==>
         GoodKey(children[i].0) && (if isList then children[i].0 == IntKey(i) else children[i].0.StrKey?)
  }

  /** What the admin console sends: non-blank text, no empty list or dictionary, good keys throughout. */
  ghost predicate Printable(o: Obj)
    decreases o
  {
    match o
    case Leaf(s) => s != ""
    case Node(isList, children) =>
      children != [] && GoodChildren(isList, children) && forall i :: 0 <= i < |children| ==> Printable(children[i].1)
  }

  ghost predicate AllPrintable(children: seq<(Key, Obj)>) {
    forall i :: 0 <= i < |children| ==> Printable(children[i].1)
  }

  /** The parsed form of an object. */
  function ToValue(o: Obj): Value
    decreases o, 1
  {
    match o
    case Leaf(s) => Str(s)
    case Node(isList, children) => if isList then List(ToValues(children)) else Dict(ToItems(children))
  }

  function ToValues(children: seq<(Key, Obj)>): (r: seq<Value>)
    ensures |r| == |children|
    decreases children, 0
  {
    if children == [] then []
    else
      var (k, o) := children[0];
      assert o < children[0];
      [ToValue(o)] + ToValues(children[1..])
  }

  function ToItems(children: seq<(Key, Obj)>): (r: seq<(Key, Value)>)
    ensures |r| == |children|
    decreases children, 0
  {
    if children == [] then []
    else
      var (k, o) := children[0];
      assert o < children[0];
      [(k, ToValue(o))] + ToItems(children[1..])
  }

  // The printer.

  function Digit(d: nat): char
    requires d < 10
  {
    '0' + d as char
  }

  function Decimal(n: nat): string {
    if n < 10 then [Digit(n)] else Decimal(n / 10) + [Digit(n % 10)]
  }

  function KeyText(k: Key): string {
    match k
    case IntKey(i) => if i < 0 then "-" + Decimal(-i) else Decimal(i)
    case StrKey(s) => s
  }

  ghost predicate GoodPath(path: seq<Key>) {
    forall i :: 0 <= i < |path| ==> GoodKey(path[i])
  }

  /** `[k1][k2]...` */
  function Brackets(path: seq<Key>): string {
    if path == [] then "" else "[" + KeyText(path[0]) + "]" + Brackets(path[1..])
  }

  /** The leaves with the keys that lead to them, depth first. */
  function Paths(o: Obj): seq<(seq<Key>, string)>
    decreases o, 1
  {
    match o
    case Leaf(s) => [([], s)]
    case Node(_, children) => ChildPaths(children)
  }

  function ChildPaths(children: seq<(Key, Obj)>): seq<(seq<Key>, string)>
    decreases children, 0
  {
    if children == [] then []
    else
      var (k, o) := children[0];
      assert o < children[0];
      Under(k, Paths(o)) + ChildPaths(children[1..])
  }

  function Under(k: Key, paths: seq<(seq<Key>, string)>): (r: seq<(seq<Key>, string)>)
    ensures |r| == |paths|
    ensures forall i :: 0 <= i < |r| ==> r[i] == ([k] + paths[i].0, paths[i].1)
  {
    seq(|paths|, i requires 0 <= i < |paths| => ([k] + paths[i].0, paths[i].1))
  }

  ghost predicate GoodPaths(paths: seq<(seq<Key>, string)>) {
    forall i :: 0 <= i < |paths| ==>
      paths[i].0 != [] && paths[i].0[0].StrKey? && GoodPath(paths[i].0) && paths[i].1 != ""
  }

  /** `name[k1][k2]=text` for every leaf. */
  function Print(paths: seq<(seq<Key>, string)>): (r: seq<(string, string)>)
    requires GoodPaths(paths)
    ensures |r| == |paths|
    ensures forall i :: 0 <= i < |r| ==> r[i] == (paths[i].0[0].s + Brackets(paths[i].0[1..]), paths[i].1)
  {
    seq(|paths|, i requires 0 <= i < |paths| => (paths[i].0[0].s + Brackets(paths[i].0[1..]), paths[i].1))
  }

  // Text level: the helper turns a printed key back into its path.

  predicate AsciiDigitsOnly(s: string) {
    forall i :: 0 <= i < |s| ==> '0' <= s[i] <= '9'
  }

  lemma {:induction false} DecimalIsAscii(n: nat)
    ensures Decimal(n) != "" && AsciiDigitsOnly(Decimal(n))
  {
    if n >= 10 {
      DecimalIsAscii(n / 10);
    }
  }

  lemma {:induction false} DecimalHasValue(n: nat)
    ensures DigitsValue(Decimal(n)) == Some(n)
  {
    if n < 10 {
      LastDigit("", n);
      assert "" + [Digit(n)] == [Digit(n)];
    } else {
      DecimalHasValue(n / 10);
      LastDigit(Decimal(n / 10), n % 10);
    }
  }

  lemma LastDigit(init: string, d: nat)
    requires d < 10 && DigitsValue(init).Some?
    ensures DigitsValue(init + [Digit(d)]) == Some(10 * DigitsValue(init).value + d)
  {
    var s := init + [Digit(d)];
    assert s[..|s| - 1] == init && s[|s| - 1] == Digit(d);
  }

  lemma AsciiIsNumber(s: string)
    requires s != "" && AsciiDigitsOnly(s)
    ensures AllDigits(s) && Unsigned(s) == s && IsNumber(s) && ParseInt(s) == WithSign(s, DigitsValue(s))
  {
  }

  lemma DecimalParses(n: nat)
    ensures Decimal(n) != "" && forall i :: 0 <= i < |Decimal(n)| ==> '0' <= Decimal(n)[i] <= '9'
    ensures DigitsValue(Decimal(n)) == Some(n)
    ensures AllDigits(Decimal(n)) && IsNumber(Decimal(n)) && ParseInt(Decimal(n)) == Some(n)
  {
    DecimalIsAscii(n);
    DecimalHasValue(n);
    AsciiIsNumber(Decimal(n));
  }

  predicate PlainText(text: string) {
    text != "" && forall i :: 0 <= i < |text| ==> text[i] != '[' && text[i] != ']' && text[i] != '\''
  }

  /** Signed decimals read back too, a plus sign included. */
  lemma SignedDecimalParses(i: int)
    ensures ToKey(KeyText(IntKey(i))) == Ok(IntKey(i)) && ToValueText(KeyText(IntKey(i)), true) == Ok(Int(i))
    ensures i >= 0 ==> ToKey("+" + Decimal(i)) == Ok(IntKey(i))
  {
    var digits := Decimal(if i < 0 then -i else i);
    DecimalParses(if i < 0 then -i else i);
    UnsignedParts(digits);
    NumberReads(if i < 0 then "-" + digits else digits, i);
    if i >= 0 {
      NumberReads("+" + digits, i);
    }
  }

  lemma UnsignedParts(digits: string)
    ensures Unsigned("-" + digits) == digits && Unsigned("+" + digits) == digits
  {
    assert ("-" + digits)[1..] == digits && ("+" + digits)[1..] == digits;
  }

  lemma NumberReads(s: string, i: int)
    requires IsNumber(s) && ParseInt(s) == Some(i)
    ensures ToKey(s) == Ok(IntKey(i)) && ToValueText(s, true) == Ok(Int(i))
  {
  }

  /** A printed key is plain text, and its text says which key it was. */
  lemma KeyTextParses(k: Key)
    requires GoodKey(k)
    ensures PlainText(KeyText(k)) && ToKey(KeyText(k)) == Ok(k)
  {
    if k.IntKey? {
      DecimalParses(k.i);
    }
  }

  /** The dictionary chain for a path. */
  function Branch(path: seq<Key>, s: string): Value {
    if path == [] then Str(s) else Dict([(path[0], Branch(path[1..], s))])
  }

  /** Where the first group of a key opens and closes. */
  lemma FirstBrackets(text: string, rest: string)
    requires PlainText(text)
    ensures var s := "[" + text + "]" + rest; Find(s, '[', 0) == 0 && Find(s, ']', 0) == |text| + 1
  {
    var s := "[" + text + "]" + rest;
    assert s[|text| + 1] == ']';
    forall i | 1 <= i < |text| + 1
      ensures s[i] == text[i - 1]
    {
    }
  }

  lemma FirstGroup(text: string, rest: string)
    requires PlainText(text)
    ensures var s := "[" + text + "]" + rest;
            && Find(s, '[', 0) == 0 && Find(s, ']', 0) == |text| + 1
            && !HasVariableName(s) && GetKey(s) == Some(text)
            && s[|text| + 2..] == rest
  {
    var s := "[" + text + "]" + rest;
    FirstBrackets(text, rest);
    assert s[1..|text| + 1] == text;
    assert s[1] == text[0] && s[|text|] == text[|text| - 1];
  }

  lemma {:induction false} BracketsParse(path: seq<Key>, s: string)
    requires path != [] && GoodPath(path)
    ensures ParserHelper(Brackets(path), s) == Ok((path[0], Branch(path[1..], s)))
    decreases |path|
  {
    var text, rest := KeyText(path[0]), Brackets(path[1..]);
    var key := Brackets(path);
    KeyTextParses(path[0]);
    FirstGroup(text, rest);
    GroupsLeft(path);
    if |path| > 1 {
      BracketsParse(path[1..], s);
    } else {
      assert key != "[]" by { assert |key| > 2; }
    }
  }

  /** Behind a group whose rest starts with another group, that one is found; behind one with no rest, none is. */
  lemma NextGroup(key: string, close: nat, text: string)
    requires close < |key| && key[close] == ']'
    ensures |key| == close + 1 ==> !HasGroups(key, close, 1)
    ensures close + 2 + |text| < |key| && key[close + 1] == '[' && key[close + 2 + |text|] == ']' ==>
              HasGroups(key, close, 1)
  {
    if |key| == close + 1 {
      assert Find(key, '[', close) == -1;
    } else if close + 2 + |text| < |key| && key[close + 1] == '[' && key[close + 2 + |text|] == ']' {
      var open := Find(key, '[', close);
      assert open == close + 1;
      assert Find(key, ']', open) != -1;
    }
  }

  /** Where the second group of a key stands. */
  lemma SecondGroupStands(text: string, text2: string, rest: string)
    ensures var key := "[" + text + "]" + ("[" + text2 + "]" + rest);
            && |key| == |text| + 4 + |text2| + |rest|
            && key[|text| + 1] == ']' && key[|text| + 2] == '[' && key[|text| + 3 + |text2|] == ']'
  {
    var second := "[" + text2 + "]" + rest;
    assert second[0] == '[' && second[|text2| + 1] == ']';
    var key := "[" + text + "]" + second;
    assert key[|text| + 2] == second[0] && key[|text| + 2 + |text2| + 1] == second[|text2| + 1];
  }

  lemma AfterFirstGroup(text: string, rest: string)
    requires PlainText(text)
    ensures var key := "[" + text + "]" + rest;
            HasGroups(key, 0, 2) == HasGroups(key, |text| + 1, 1) && key[|text| + 1] == ']'
  {
    FirstBrackets(text, rest);
  }

  lemma OneGroup(text: string)
    requires PlainText(text)
    ensures !HasGroups("[" + text + "]" + "", 0, 2)
  {
    AfterFirstGroup(text, "");
    NextGroup("[" + text + "]" + "", |text| + 1, "");
  }

  lemma TwoGroups(text: string, text2: string, rest: string)
    requires PlainText(text)
    ensures HasGroups("[" + text + "]" + ("[" + text2 + "]" + rest), 0, 2)
  {
    AfterFirstGroup(text, "[" + text2 + "]" + rest);
    SecondGroupStands(text, text2, rest);
    NextGroup("[" + text + "]" + ("[" + text2 + "]" + rest), |text| + 1, text2);
  }

  lemma BracketsOfOne(path: seq<Key>)
    requires |path| == 1
    ensures Brackets(path) == "[" + KeyText(path[0]) + "]" + ""
  {
    assert path[1..] == [];
  }

  lemma BracketsOfTwo(path: seq<Key>)
    requires |path| > 1
    ensures Brackets(path) == "[" + KeyText(path[0]) + "]" + ("[" + KeyText(path[1]) + "]" + Brackets(path[2..]))
  {
    assert path[1..][1..] == path[2..];
  }

  /** A second group is seen exactly when the path has a second key. */
  lemma GroupsLeft(path: seq<Key>)
    requires path != [] && PlainText(KeyText(path[0]))
    ensures HasGroups(Brackets(path), 0, 2) <==> |path| > 1
  {
    if |path| > 1 {
      BracketsOfTwo(path);
      TwoGroups(KeyText(path[0]), KeyText(path[1]), Brackets(path[2..]));
    } else {
      BracketsOfOne(path);
      OneGroup(KeyText(path[0]));
    }
  }

  lemma PrintedKeyParses(path: seq<Key>, s: string)
    requires path != [] && path[0].StrKey? && GoodPath(path)
    ensures ParserHelper(path[0].s + Brackets(path[1..]), s) == Ok((path[0], Branch(path[1..], s)))
  {
    var name, rest := path[0].s, Brackets(path[1..]);
    var key := name + rest;
    assert forall i :: 0 <= i < |name| ==> key[i] == name[i];
    if |path| == 1 {
      assert key == name;
      assert Find(key, '[', 0) == -1;
    } else {
      assert rest[0] == '[' && key[|name|] == '[';
      assert Find(key, '[', 0) == |name|;
      assert key[|name|..] == rest && key[..|name|] == name;
      BracketsParse(path[1..], s);
    }
  }

  // Tree level: merging the branches of a tree, depth first, rebuilds the tree.

  ghost predicate NonEmptyPaths(paths: seq<(seq<Key>, string)>) {
    forall i :: 0 <= i < |paths| ==> paths[i].0 != []
  }

  function Branches(paths: seq<(seq<Key>, string)>): (r: seq<(Key, Value)>)
    requires forall i :: 0 <= i < |paths| ==> paths[i].0 != []
    ensures |r| == |paths|
    ensures forall i :: 0 <= i < |r| ==> r[i] == (paths[i].0[0], Branch(paths[i].0[1..], paths[i].1))
  {
    seq(|paths|, i requires 0 <= i < |paths| => (paths[i].0[0], Branch(paths[i].0[1..], paths[i].1)))
  }

  /** The same branches one level further down, below `k`. */
  function Lift(k: Key, branches: seq<(Key, Value)>): (r: seq<(Key, Value)>)
    ensures |r| == |branches|
    ensures forall i :: 0 <= i < |r| ==> r[i] == (k, Dict([branches[i]]))
  {
    seq(|branches|, i requires 0 <= i < |branches| => (k, Dict([branches[i]])))
  }

  /** The parsed tree before normalising: lists are still int-keyed dictionaries. */
  function Raw(o: Obj): Value
    decreases o, 1
  {
    match o
    case Leaf(s) => Str(s)
    case Node(_, children) => Dict(RawItems(children))
  }

  function RawItems(children: seq<(Key, Obj)>): (r: seq<(Key, Value)>)
    ensures |r| == |children|
    decreases children, 0
  {
    if children == [] then []
    else
      var (k, o) := children[0];
      assert o < children[0];
      [(k, Raw(o))] + RawItems(children[1..])
  }

  lemma {:induction false} MergeConcat(t: Value, a: seq<(Key, Value)>, b: seq<(Key, Value)>)
    ensures MergeAll(t, a + b)
            == var first := MergeAll(t, a); if first.Ok? then MergeAll(first.value, b) else first
    decreases |a|
  {
    if a == [] {
      assert a + b == b;
    } else {
      assert (a + b)[1..] == a[1..] + b;
      var next := Merge(t, a[0].0, a[0].1);
      if next.Ok? {
        MergeConcat(next.value, a[1..], b);
      }
    }
  }

  lemma LastIsFound(items: seq<(Key, Value)>, k: Key, x: Value)
    requires !HasKey(items, k)
    ensures HasKey(items + [(k, x)], k) && PositionOf(items + [(k, x)], k) == |items|
  {
    assert (items + [(k, x)])[|items|].0 == k;
    assert forall i :: 0 <= i < |items| ==> (items + [(k, x)])[i] == items[i];
  }

  /** Merging below the last key of a dictionary merges into the value stored there. */
  lemma {:induction false} MergeBelow(items: seq<(Key, Value)>, k: Key, x: Value, branches: seq<(Key, Value)>)
    requires !HasKey(items, k)
    ensures MergeAll(Dict(items + [(k, x)]), Lift(k, branches))
            == var below := MergeAll(x, branches);
               if below.Ok? then Ok(Dict(items + [(k, below.value)])) else below
    decreases |branches|
  {
    if branches != [] {
      LastIsFound(items, k, x);
      var b := branches[0];
      var next := Merge(x, b.0, b.1);
      assert Lift(k, branches)[1..] == Lift(k, branches[1..]);
      if next.Ok? {
        assert (items + [(k, x)])[|items| := (k, next.value)] == items + [(k, next.value)];
        MergeBelow(items, k, next.value, branches[1..]);
      }
    }
  }

  /** Merging branches below a new key builds their tree there. */
  lemma MergeBelowNewKey(items: seq<(Key, Value)>, k: Key, branches: seq<(Key, Value)>)
    requires !HasKey(items, k) && branches != []
    ensures MergeAll(Dict(items), Lift(k, branches))
            == var below := MergeAll(Dict([]), branches);
               if below.Ok? then Ok(Dict(items + [(k, below.value)])) else below
  {
    var b := branches[0];
    var none: seq<(Key, Value)> := [];
    assert !HasKey(none, b.0) && none + [(b.0, b.1)] == [b];
    assert Merge(Dict(none), b.0, b.1) == Ok(Dict([b]));
    assert Merge(Dict(items), k, Dict([b])) == Ok(Dict(items + [(k, Dict([b]))]));
    assert Lift(k, branches)[1..] == Lift(k, branches[1..]);
    MergeBelow(items, k, Dict([b]), branches[1..]);
  }

  lemma {:induction false} ChildPathsNonEmpty(children: seq<(Key, Obj)>)
    ensures NonEmptyPaths(ChildPaths(children))
    ensures AllPrintable(children) && children != [] ==> ChildPaths(children) != []
    decreases children, 0
  {
    if children != [] {
      var (k, o) := children[0];
      assert o < children[0];
      ChildPathsNonEmpty(children[1..]);
      if o.Node? {
        ChildPathsNonEmpty(o.children);
      }
    }
  }

  /** No child's key is taken yet. */
  ghost predicate Fresh(items: seq<(Key, Value)>, children: seq<(Key, Obj)>) {
    forall i :: 0 <= i < |children| ==> !HasKey(items, children[i].0)
  }

  lemma KeysStayFresh(items: seq<(Key, Value)>, children: seq<(Key, Obj)>, v: Value)
    requires children != [] && DistinctKeys(children) && Fresh(items, children)
    ensures !HasKey(items, children[0].0)
    ensures DistinctKeys(children[1..]) && Fresh(items + [(children[0].0, v)], children[1..])
  {
    forall i | 0 <= i < |children[1..]|
      ensures !HasKey(items + [(children[0].0, v)], children[1..][i].0)
    {
      assert children[1..][i] == children[i + 1];
      assert forall j :: 0 <= j < |items| ==> items[j].0 != children[i + 1].0;
    }
  }

  /** Merging the branches of `paths` turns the dictionary of `before` into that of `after`. */
  ghost predicate Builds(before: seq<(Key, Value)>, paths: seq<(seq<Key>, string)>, after: seq<(Key, Value)>) {
    NonEmptyPaths(paths) && MergeAll(Dict(before), Branches(paths)) == Ok(Dict(after))
  }

  lemma BranchesConcat(a: seq<(seq<Key>, string)>, b: seq<(seq<Key>, string)>)
    requires NonEmptyPaths(a) && NonEmptyPaths(b)
    ensures NonEmptyPaths(a + b) && Branches(a + b) == Branches(a) + Branches(b)
  {
  }

  lemma BuildsInParts(before: seq<(Key, Value)>, a: seq<(seq<Key>, string)>, middle: seq<(Key, Value)>,
                      b: seq<(seq<Key>, string)>, after: seq<(Key, Value)>)
    requires Builds(before, a, middle) && Builds(middle, b, after)
    ensures Builds(before, a + b, after)
  {
    BranchesConcat(a, b);
    MergeConcat(Dict(before), Branches(a), Branches(b));
  }

  lemma {:induction false} MergeSubtree(items: seq<(Key, Value)>, k: Key, o: Obj)
    requires Printable(o) && !HasKey(items, k)
    ensures Builds(items, Under(k, Paths(o)), items + [(k, Raw(o))])
    decreases o, 1
  {
    match o {
      case Leaf(s) =>
        assert [k] + [] == [k];
        assert Under(k, Paths(o)) == [([k], s)];
        assert Branches([([k], s)])[1..] == [];
      case Node(isList, children) =>
        ChildPathsNonEmpty(children);
        var paths := ChildPaths(children);
        assert Branches(Under(k, paths)) == Lift(k, Branches(paths)) by {
          forall i | 0 <= i < |paths|
            ensures Branches(Under(k, paths))[i] == Lift(k, Branches(paths))[i]
          {
            var path := paths[i].0;
            assert ([k] + path)[1..] == path;
          }
        }
        MergeBelowNewKey(items, k, Branches(paths));
        MergeChildren([], children);
        assert [] + RawItems(children) == RawItems(children);
    }
  }

  lemma FirstChildBuilt(items: seq<(Key, Value)>, children: seq<(Key, Obj)>)
    requires children != []
    ensures var (k, o) := children[0];
            items + RawItems(children) == items + [(k, Raw(o))] + RawItems(children[1..])
            && ChildPaths(children) == Under(k, Paths(o)) + ChildPaths(children[1..])
  {
    var (k, o) := children[0];
    assert RawItems(children) == [(k, Raw(o))] + RawItems(children[1..]);
  }

  lemma {:induction false} MergeChildren(items: seq<(Key, Value)>, children: seq<(Key, Obj)>)
    requires DistinctKeys(children) && AllPrintable(children) && Fresh(items, children)
    ensures Builds(items, ChildPaths(children), items + RawItems(children))
    decreases children, 0
  {
    if children == [] {
      assert items + [] == items;
    } else {
      var (k, o) := children[0];
      assert o < children[0];
      var more := items + [(k, Raw(o))];
      KeysStayFresh(items, children, Raw(o));
      MergeSubtree(items, k, o);
      MergeChildren(more, children[1..]);
      FirstChildBuilt(items, children);
      BuildsInParts(items, Under(k, Paths(o)), more, ChildPaths(children[1..]), items + RawItems(children));
    }
  }

  // Normalising: exactly the objects without a list directly inside a list come back.

  predicate NoNestedLists(o: Obj)
    decreases o
  {
    o.Node? ==> forall i :: 0 <= i < |o.children| ==>
      NoNestedLists(o.children[i].1) && !(o.isList && o.children[i].1.Node? && o.children[i].1.isList)
  }

  lemma {:induction false} RawIsFilled(children: seq<(Key, Obj)>)
    requires AllPrintable(children)
    ensures FilledItems(RawItems(children))
    decreases children, 0
  {
    if children != [] {
      var (k, o) := children[0];
      assert o < children[0];
      RawIsFilled(children[1..]);
      if o.Node? {
        RawIsFilled(o.children);
      }
    }
  }

  lemma ConsEqual<T>(a: T, x: seq<T>, b: T, y: seq<T>)
    ensures [a] + x == [b] + y <==> a == b && x == y
  {
    assert ([a] + x)[1..] == x && ([b] + y)[1..] == y;
    assert ([a] + x)[0] == a && ([b] + y)[0] == b;
  }

  ghost predicate NoneNested(children: seq<(Key, Obj)>) {
    forall i :: 0 <= i < |children| ==> NoNestedLists(children[i].1)
  }

  ghost predicate NoLists(children: seq<(Key, Obj)>) {
    forall i :: 0 <= i < |children| ==> !(children[i].1.Node? && children[i].1.isList)
  }

  lemma ChildrenSplit(children: seq<(Key, Obj)>)
    requires children != []
    ensures AllPrintable(children) ==> Printable(children[0].1) && AllPrintable(children[1..])
    ensures NoneNested(children) <==> NoNestedLists(children[0].1) && NoneNested(children[1..])
    ensures NoLists(children) <==> !(children[0].1.Node? && children[0].1.isList) && NoLists(children[1..])
  {
    assert children == [children[0]] + children[1..];
  }

  lemma FormsSplit(children: seq<(Key, Obj)>)
    requires children != []
    ensures var ((k, o), rest) := (children[0], children[1..]);
            && RawItems(children) == [(k, Raw(o))] + RawItems(rest)
            && ToItems(children) == [(k, ToValue(o))] + ToItems(rest)
            && ToValues(children) == [ToValue(o)] + ToValues(rest)
  {
  }

  lemma NormalizeSplit(k: Key, v: Value, rest: seq<(Key, Value)>)
    requires Filled(v) && FilledItems(rest)
    ensures FilledItems([(k, v)] + rest)
    ensures NormalizeItems([(k, v)] + rest) == [(k, NormalizeItem(v))] + NormalizeItems(rest)
    ensures NormalizeValues([(k, v)] + rest) == [Normalize(v)] + NormalizeValues(rest)
  {
    var items := [(k, v)] + rest;
    assert items[1..] == rest && items[0] == (k, v);
  }

  /** The first key of a printable node: an index in a list, a non-empty name in a dictionary. */
  lemma FirstKey(o: Obj)
    requires Printable(o) && o.Node?
    ensures o.children != [] && RawItems(o.children)[0].0 == o.children[0].0
    ensures if o.isList then o.children[0].0.IntKey? else o.children[0].0.StrKey? && o.children[0].0 != StrKey("")
    ensures AllPrintable(o.children)
  {
  }

  lemma {:induction false} ItemComesBack(o: Obj)
    requires Printable(o)
    ensures Filled(Raw(o))
    ensures NormalizeItem(Raw(o)) == ToValue(o) <==> NoNestedLists(o)
    decreases o, 1
  {
    if o.Node? {
      FirstKey(o);
      RawIsFilled(o.children);
      NestingUnfolds(o);
      if o.isList {
        ValuesComeBack(o.children);
      } else {
        ItemsComeBack(o.children);
      }
    }
  }

  lemma NestingUnfolds(o: Obj)
    requires o.Node?
    ensures NoNestedLists(o) <==> NoneNested(o.children) && (o.isList ==> NoLists(o.children))
  {
  }

  /** Inside a list a child is normalised without being looked at itself, so a list there does not come back. */
  lemma {:induction false} ChildComesBack(o: Obj)
    requires Printable(o)
    ensures Filled(Raw(o))
    ensures Normalize(Raw(o)) == ToValue(o) <==> NoNestedLists(o) && !(o.Node? && o.isList)
    decreases o, 2
  {
    ItemComesBack(o);
    if o.Node? {
      FirstKey(o);
    }
  }

  lemma {:induction false} ItemsComeBack(children: seq<(Key, Obj)>)
    requires AllPrintable(children)
    ensures FilledItems(RawItems(children))
    ensures NormalizeItems(RawItems(children)) == ToItems(children) <==> NoneNested(children)
    decreases children, 0
  {
    if children != [] {
      var (k, o) := children[0];
      assert o < children[0];
      var rest := children[1..];
      ChildrenSplit(children);
      FormsSplit(children);
      ItemComesBack(o);
      ItemsComeBack(rest);
      NormalizeSplit(k, Raw(o), RawItems(rest));
      ConsEqual((k, NormalizeItem(Raw(o))), NormalizeItems(RawItems(rest)), (k, ToValue(o)), ToItems(rest));
    }
  }

  lemma {:induction false} ValuesComeBack(children: seq<(Key, Obj)>)
    requires AllPrintable(children)
    ensures FilledItems(RawItems(children))
    ensures NormalizeValues(RawItems(children)) == ToValues(children) <==> NoneNested(children) && NoLists(children)
    decreases children, 0
  {
    if children != [] {
      var (k, o) := children[0];
      assert o < children[0];
      var rest := children[1..];
      ChildrenSplit(children);
      FormsSplit(children);
      ChildComesBack(o);
      ValuesComeBack(rest);
      NormalizeSplit(k, Raw(o), RawItems(rest));
      ConsEqual(Normalize(Raw(o)), NormalizeValues(RawItems(rest)), ToValue(o), ToValues(rest));
    }
  }

  // The whole way.

  ghost predicate GoodTails(paths: seq<(seq<Key>, string)>) {
    forall i :: 0 <= i < |paths| ==> GoodPath(paths[i].0) && paths[i].1 != ""
  }

  lemma UnderIsGood(k: Key, paths: seq<(seq<Key>, string)>)
    requires GoodKey(k) && GoodTails(paths)
    ensures GoodTails(Under(k, paths))
  {
    forall i | 0 <= i < |paths|
      ensures GoodPath([k] + paths[i].0)
    {
    }
  }

  lemma {:induction false} ChildPathsGood(children: seq<(Key, Obj)>)
    requires AllPrintable(children) && forall i :: 0 <= i < |children| ==> GoodKey(children[i].0)
    ensures GoodTails(ChildPaths(children))
    decreases children, 0
  {
    if children != [] {
      var (k, o) := children[0];
      assert o < children[0];
      ChildPathsGood(children[1..]);
      if o.Node? {
        ChildPathsGood(o.children);
      } else {
        assert GoodPath([]);
      }
      UnderIsGood(k, Paths(o));
    }
  }

  lemma {:induction false} TopPathsGood(children: seq<(Key, Obj)>)
    requires AllPrintable(children)
    requires forall i :: 0 <= i < |children| ==> GoodKey(children[i].0) && children[i].0.StrKey?
    ensures GoodPaths(ChildPaths(children))
    decreases |children|
  {
    ChildPathsGood(children);
    if children != [] {
      TopPathsGood(children[1..]);
      assert ChildPaths(children) == Under(children[0].0, Paths(children[0].1)) + ChildPaths(children[1..]);
    }
  }

  lemma {:induction false} NothingBlank(pairs: seq<(string, string)>)
    requires forall i :: 0 <= i < |pairs| ==> pairs[i].1 != ""
    ensures DropBlank(pairs) == pairs
  {
    if pairs != [] {
      NothingBlank(pairs[1..]);
    }
  }

  /** Pairs that parse to these branches merge as these branches. */
  lemma {:induction false} ParsedPairsMerge(t: Value, pairs: seq<(string, string)>, branches: seq<(Key, Value)>)
    requires |pairs| == |branches|
    requires forall i :: 0 <= i < |pairs| ==> ParserHelper(pairs[i].0, pairs[i].1) == Ok(branches[i])
    ensures ParseBranches(t, pairs) == MergeAll(t, branches)
    decreases |pairs|
  {
    if pairs != [] {
      var next := Merge(t, branches[0].0, branches[0].1);
      if next.Ok? {
        ParsedPairsMerge(next.value, pairs[1..], branches[1..]);
      }
    }
  }

  lemma PrintedPairsMerge(t: Value, paths: seq<(seq<Key>, string)>)
    requires GoodPaths(paths)
    ensures DropBlank(Print(paths)) == Print(paths)
    ensures ParseBranches(t, Print(paths)) == MergeAll(t, Branches(paths))
  {
    NothingBlank(Print(paths));
    forall i | 0 <= i < |paths|
      ensures ParserHelper(Print(paths)[i].0, Print(paths)[i].1) == Ok(Branches(paths)[i])
    {
      PrintedKeyParses(paths[i].0, paths[i].1);
    }
    ParsedPairsMerge(t, Print(paths), Branches(paths));
  }

  /** Whatever printable dictionary is printed, parsing gives its normalised tree. */
  lemma PrintedParsesTo(o: Obj)
    requires o.Node? && !o.isList && GoodChildren(false, o.children) && AllPrintable(o.children)
    ensures GoodPaths(Paths(o)) && FilledItems(RawItems(o.children))
    ensures ParseQuery(Print(Paths(o))) == Ok(Dict(NormalizeItems(RawItems(o.children))))
  {
    TopPathsGood(o.children);
    PrintedPairsMerge(Dict([]), Paths(o));
    MergeChildren([], o.children);
    assert [] + RawItems(o.children) == RawItems(o.children);
    ParsedIsFilled(Dict([]), Print(Paths(o)));
  }

  /**
   Round trip. Flatten a dictionary of printable objects to name[k][i]=text pairs, depth first: parsing the pairs gives
   the same dictionary back if and only if no list stands directly inside a list.
   */
  lemma RoundTrip(o: Obj)
    requires o.Node? && !o.isList && GoodChildren(false, o.children) && AllPrintable(o.children)
    ensures GoodPaths(Paths(o))
    ensures ParseQuery(Print(Paths(o))) == Ok(ToValue(o)) <==> NoNestedLists(o)
  {
    PrintedParsesTo(o);
    ItemsComeBack(o.children);
    NestingUnfolds(o);
  }

  /** A dictionary that holds `text` in a list inside a list, under `name`. */
  function ListInList(name: string, text: string): Obj {
    Node(false, [(StrKey(name), Node(true, [(IntKey(0), Node(true, [(IntKey(0), Leaf(text))]))]))])
  }

  /** One family of inputs: the inner list comes back as a dictionary keyed 0. */
  lemma ListInListIsLost(name: string, text: string)
    requires GoodName(name) && text != ""
    ensures var o := ListInList(name, text);
            && GoodPaths(Paths(o))
            && ToValue(o) == Dict([(StrKey(name), List([List([Str(text)])]))])
            && ParseQuery(Print(Paths(o))) == Ok(Dict([(StrKey(name), List([Dict([(IntKey(0), Str(text))])]))]))
  {
    ListInListPrintable(name, text);
    PrintedParsesTo(ListInList(name, text));
    ListInListForms(name, text);
    ListInListNormalizes(name, text);
  }

  lemma ListInListPrintable(name: string, text: string)
    requires GoodName(name) && text != ""
    ensures var o := ListInList(name, text);
            o.Node? && !o.isList && GoodChildren(false, o.children) && AllPrintable(o.children)
  {
    var inner := Node(true, [(IntKey(0), Leaf(text))]);
    assert Printable(Leaf(text)) && Printable(inner);
    assert Printable(Node(true, [(IntKey(0), inner)]));
  }

  lemma ListInListForms(name: string, text: string)
    ensures var o := ListInList(name, text);
            && ToValue(o) == Dict([(StrKey(name), List([List([Str(text)])]))])
            && RawItems(o.children) == [(StrKey(name), Dict([(IntKey(0), Dict([(IntKey(0), Str(text))]))]))]
  {
    var inner := Node(true, [(IntKey(0), Leaf(text))]);
    SingleForms(IntKey(0), Leaf(text));
    SingleForms(IntKey(0), inner);
    SingleForms(StrKey(name), Node(true, [(IntKey(0), inner)]));
  }

  lemma ListInListNormalizes(name: string, text: string)
    ensures var items := [(StrKey(name), Dict([(IntKey(0), Dict([(IntKey(0), Str(text))]))]))];
            FilledItems(items)
            && NormalizeItems(items) == [(StrKey(name), List([Dict([(IntKey(0), Str(text))])]))]
  {
    var raw := Dict([(IntKey(0), Str(text))]);
    SingleNormalizes(IntKey(0), Str(text));
    SingleNormalizes(IntKey(0), raw);
    SingleNormalizes(StrKey(name), Dict([(IntKey(0), raw)]));
  }

  lemma SingleForms(k: Key, o: Obj)
    ensures RawItems([(k, o)]) == [(k, Raw(o))] && ToItems([(k, o)]) == [(k, ToValue(o))]
            && ToValues([(k, o)]) == [ToValue(o)]
  {
    FormsSplit([(k, o)]);
    assert [(k, o)][1..] == [];
  }

  lemma SingleNormalizes(k: Key, v: Value)
    requires Filled(v)
    ensures FilledItems([(k, v)])
    ensures NormalizeItems([(k, v)]) == [(k, NormalizeItem(v))] && NormalizeValues([(k, v)]) == [Normalize(v)]
  {
    NormalizeSplit(k, v, []);
    assert [(k, v)] + [] == [(k, v)];
  }

  /** There is such a name. */
  lemma LetterIsAName()
    ensures GoodName("a")
  {
    AsciiDigits('a');
  }
}
