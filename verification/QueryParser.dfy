/** The nested query-string parser: one key=value pair at a time, merged into a tree, then normalised. */
module QueryParser {
  import opened Common

  /**
   MalformedKey is QueryParserError; BadAccess is the TypeError or IndexError of Python's containers, BadNumber the
   ValueError of `int()`.
   */
  datatype Error = MalformedKey | BadAccess | BadNumber

  datatype Result<+T> = Ok(value: T) | Err(error: Error) {
    predicate IsFailure() {
      Err?
    }

    function PropagateFailure<U>(): Result<U>
      requires Err?
    {
      Err(error)
    }

    function Extract(): T
      requires Ok?
    {
      value
    }
  }

  datatype Key = IntKey(i: int) | StrKey(s: string)

  /** Python values that occur while parsing; dictionaries keep insertion order. */
  datatype Value =
    | Str(s: string)
    | Int(i: int)
    | Dict(items: seq<(Key, Value)>)
    | List(elems: seq<Value>)

  // Text.

  /** `s.find(c, start)`. */
  function Find(s: string, c: char, start: nat): (r: int)
    requires start <= |s|
    ensures r == -1 || (start <= r < |s| && s[r] == c)
    ensures forall j :: start <= j < (if r == -1 then |s| else r) ==> s[j] != c
    decreases |s| - start
  {
    if start == |s| then -1 else if s[start] == c then start else Find(s, c, start + 1)
  }

  // The zeros of the runs of ten decimal digits beyond ASCII (Unicode 15.0, general category Nd), by code point.

  const ZEROS_BELOW_1000: seq<int> := [
    0x0660, 0x06F0, 0x07C0, 0x0966, 0x09E6, 0x0A66, 0x0AE6, 0x0B66, 0x0BE6, 0x0C66, 0x0CE6, 0x0D66, 0x0DE6, 0x0E50,
    0x0ED0, 0x0F20
  ]
  const ZEROS_BELOW_2000: seq<int> := [
    0x1040, 0x1090, 0x17E0, 0x1810, 0x1946, 0x19D0, 0x1A80, 0x1A90, 0x1B50, 0x1BB0, 0x1C40, 0x1C50
  ]
  const ZEROS_BELOW_10000: seq<int> := [
    0xA620, 0xA8D0, 0xA900, 0xA9D0, 0xA9F0, 0xAA50, 0xABF0, 0xFF10
  ]
  const ZEROS_BELOW_11800: seq<int> := [
    0x104A0, 0x10D30, 0x11066, 0x110F0, 0x11136, 0x111D0, 0x112F0, 0x11450, 0x114D0, 0x11650, 0x116C0, 0x11730
  ]
  const ZEROS_ABOVE_11800: seq<int> := [
    0x118E0, 0x11950, 0x11C50, 0x11D50, 0x11DA0, 0x11F50, 0x16A60, 0x16AC0, 0x16B50, 0x1D7CE, 0x1D7D8, 0x1D7E2,
    0x1D7EC, 0x1D7F6, 0x1E140, 0x1E2F0, 0x1E4F0, 0x1E950, 0x1FBF0
  ]

  const DECIMAL_ZEROS: seq<int> :=
    ZEROS_BELOW_1000 + ZEROS_BELOW_2000 + ZEROS_BELOW_10000 + ZEROS_BELOW_11800 + ZEROS_ABOVE_11800

  /** The digits that are no decimal digits: superscripts, circled digits and the like. */
  const OTHER_DIGITS: seq<(int, int)> := [
    (0x00B2, 0x00B3), (0x00B9, 0x00B9), (0x1369, 0x1371), (0x19DA, 0x19DA), (0x2070, 0x2070), (0x2074, 0x2079),
    (0x2080, 0x2089), (0x2460, 0x2468), (0x2474, 0x247C), (0x2488, 0x2490), (0x24EA, 0x24EA), (0x24F5, 0x24FD),
    (0x24FF, 0x24FF), (0x2776, 0x277E), (0x2780, 0x2788), (0x278A, 0x2792), (0x10A40, 0x10A43), (0x10E60, 0x10E68),
    (0x11052, 0x1105A), (0x1F100, 0x1F10A)
  ]

  function DecimalIn(zeros: seq<int>, c: char): Option<nat> {
    if zeros == [] then None
    else if zeros[0] <= c as int < zeros[0] + 10 then Some(c as int - zeros[0])
    else DecimalIn(zeros[1..], c)
  }

  /** The value of a decimal digit of any script. */
  function DecimalValue(c: char): Option<nat> {
    if '0' <= c <= '9' then Some(c as int - '0' as int) else DecimalIn(DECIMAL_ZEROS, c)
  }

  predicate InRun(zeros: seq<int>, c: char, v: int) {
    0 <= v < 10 && c as int - v in zeros
  }

  /** A digit's value is its distance from a zero of the table, and no other character has one. */
  lemma {:induction false} DecimalIsOffset(zeros: seq<int>, c: char)
    ensures DecimalIn(zeros, c).Some? ==> InRun(zeros, c, DecimalIn(zeros, c).value)
    ensures DecimalIn(zeros, c).None? ==> forall v :: !InRun(zeros, c, v)
  {
    if zeros != [] {
      assert zeros == [zeros[0]] + zeros[1..];
      DecimalIsOffset(zeros[1..], c);
      forall v
        ensures InRun(zeros, c, v) <==> InRun(zeros[1..], c, v) || (0 <= v < 10 && c as int == zeros[0] + v)
      {
      }
    }
  }

  /** What `isdigit` accepts: more than `int()` does. */
  predicate IsDigit(c: char) {
    || '0' <= c <= '9'
    || (exists zero :: zero in DECIMAL_ZEROS && zero <= c as int < zero + 10)
    || (exists range :: range in OTHER_DIGITS && range.0 <= c as int <= range.1)
  }

  lemma DecimalsBeyondAscii()
    ensures forall zero :: zero in DECIMAL_ZEROS ==> zero >= 0x0660
  {
    assert forall zero :: zero in ZEROS_BELOW_1000 ==> zero >= 0x0660;
    assert forall zero :: zero in ZEROS_BELOW_2000 ==> zero >= 0x0660;
    assert forall zero :: zero in ZEROS_BELOW_10000 ==> zero >= 0x0660;
    assert forall zero :: zero in ZEROS_BELOW_11800 ==> zero >= 0x0660;
    assert forall zero :: zero in ZEROS_ABOVE_11800 ==> zero >= 0x0660;
  }

  lemma OtherDigitsBeyondAscii()
    ensures forall range :: range in OTHER_DIGITS ==> range.0 >= 0x00B2
  {
  }

  /** Among the ASCII characters the digits are the usual ten. */
  lemma AsciiDigits(c: char)
    requires c as int < 128
    ensures IsDigit(c) <==> '0' <= c <= '9'
  {
    DecimalsBeyondAscii();
    OtherDigitsBeyondAscii();
  }

  /** `isdigit()`: non-empty and digits only. */
  predicate AllDigits(s: string) {
    s != "" && forall i :: 0 <= i < |s| ==> IsDigit(s[i])
  }

  /** The text behind a leading sign. */
  function Unsigned(s: string): string {
    if s != "" && (s[0] == '-' || s[0] == '+') then s[1..] else s
  }

  predicate IsNumber(s: string) {
    AllDigits(Unsigned(s))
  }

  /** None when a character is no decimal digit. */
  function DigitsValue(s: string): Option<nat> {
    if s == "" then Some(0)
    else
      var init, last := DigitsValue(s[..|s| - 1]), DecimalValue(s[|s| - 1]);
      if init.Some? && last.Some? then Some(10 * init.value + last.value) else None
  }

  function WithSign(s: string, digits: Option<nat>): Option<int> {
    if digits.None? then None
    else
      var value: int := digits.value;
      Some(if s != "" && s[0] == '-' then -value else value)
  }

  /** `int(s)` of a number; None is its ValueError. */
  function ParseInt(s: string): Option<int>
    requires IsNumber(s)
  {
    WithSign(s, DigitsValue(Unsigned(s)))
  }

  /** A list index becomes an int, anything else stays text. */
  function ToKey(s: string): Result<Key> {
    if !IsNumber(s) then Ok(StrKey(s))
    else if ParseInt(s).None? then Err(BadNumber)
    else Ok(IntKey(ParseInt(s).value))
  }

  /** A value; under empty brackets a number becomes an int. */
  function ToValueText(s: string, bracketed: bool): Result<Value> {
    if !bracketed || !IsNumber(s) then Ok(Str(s))
    else if ParseInt(s).None? then Err(BadNumber)
    else Ok(Int(ParseInt(s).value))
  }

  predicate HasVariableName(s: string) {
    Find(s, '[', 0) > 0
  }

  /** At least `brackets` complete groups from `start` on. */
  predicate HasGroups(s: string, start: nat, brackets: nat)
    requires start <= |s|
    decreases brackets
  {
    brackets == 0
    || (var open := Find(s, '[', start);
        open != -1
        && var close := Find(s, ']', open);
           close != -1 && HasGroups(s, close, brackets - 1))
  }

  method MoreThanOneIndex(s: string, brackets: nat := 2) returns (r: bool)
    ensures r == HasGroups(s, 0, brackets)
  {
    var start := 0;
    var bracketsNum := 0;
    while start != -1 && bracketsNum < brackets
      invariant start == -1 || 0 <= start <= |s|
      invariant 0 <= bracketsNum <= brackets
      invariant start == -1 ==> !HasGroups(s, 0, brackets)
      invariant start != -1 ==> HasGroups(s, 0, brackets) == HasGroups(s, start, brackets - bracketsNum)
      decreases brackets - bracketsNum
    {
      start := Find(s, '[', start);
      if start == -1 {
        break;
      }
      start := Find(s, ']', start);
      bracketsNum := bracketsNum + 1;
    }
    return start != -1;
  }

  /** The text of the first bracket group without surrounding quotes; callers have ruled out a leading name. */
  function GetKey(s: string): Option<string>
    requires !HasVariableName(s)
  {
    var start, end := Find(s, '[', 0), Find(s, ']', 0);
    if start == -1 || end == -1 then None
    else
      var from := if s[start + 1] == '\'' then start + 2 else start + 1;
      var to := if s[end - 1] == '\'' then end - 1 else end;
      Some(if from <= to then s[from..to] else "")
  }

  /** One pair as a single-branch dictionary, given by its only item. */
  function ParserHelper(key: string, val: string): Result<(Key, Value)>
    decreases |key|
  {
    var startBracket, endBracket := Find(key, '[', 0), Find(key, ']', 0);
    if HasVariableName(key) then
      var inner :- ParserHelper(key[startBracket..], val);
      Ok((StrKey(key[..startBracket]), Dict([inner])))
    else if HasGroups(key, 0, 2) then
      var newKey :- ToKey(GetKey(key).value);
      var inner :- ParserHelper(key[endBracket + 1..], val);
      Ok((newKey, Dict([inner])))
    else if startBracket != -1 then
      if GetKey(key).None? then Err(MalformedKey)
      else
        var newKey :- ToKey(GetKey(key).value);
        var value :- ToValueText(val, key == "[]");
        Ok((newKey, value))
    else
      var newKey :- ToKey(key);
      Ok((newKey, Str(val)))
  }

  // Merging.

  predicate HasKey(items: seq<(Key, Value)>, k: Key) {
    exists i :: 0 <= i < |items| && items[i].0 == k
  }

  function PositionOf(items: seq<(Key, Value)>, k: Key): (i: nat)
    requires HasKey(items, k)
    ensures i < |items| && items[i].0 == k
    ensures forall j :: 0 <= j < i ==> items[j].0 != k
  {
    if items[0].0 == k then 0
    else
      assert forall i :: 0 < i < |items| ==> items[i] == items[1..][i - 1];
      1 + PositionOf(items[1..], k)
  }

  /** Python's negative indexing. */
  function Index(i: int, n: nat): Option<nat> {
    if 0 <= i < n then Some(i) else if 0 - n <= i < 0 then Some(i + n) else None
  }

  /**
   `k in t`. Into a string or an int, and into a list by text, every use of the answer fails with the same TypeError,
   so the test itself stands for it.
   */
  function Contains(t: Value, k: Key): Result<bool> {
    match t
    case Dict(items) => Ok(HasKey(items, k))
    case List(elems) => if k.IntKey? then Ok(Int(k.i) in elems) else Err(BadAccess)
    case _ => Err(BadAccess)
  }

  /** `t[k]`. */
  function GetItem(t: Value, k: Key): Result<Value> {
    match t
    case Dict(items) => if HasKey(items, k) then Ok(items[PositionOf(items, k)].1) else Err(BadAccess)
    case List(elems) =>
      if k.IntKey? && Index(k.i, |elems|).Some? then Ok(elems[Index(k.i, |elems|).value]) else Err(BadAccess)
    case _ => Err(BadAccess)
  }

  /** `t[k] = v`. */
  function SetItem(t: Value, k: Key, v: Value): Result<Value> {
    match t
    case Dict(items) =>
      Ok(Dict(if HasKey(items, k) then items[PositionOf(items, k) := (k, v)] else items + [(k, v)]))
    case List(elems) =>
      if k.IntKey? && Index(k.i, |elems|).Some? then Ok(List(elems[Index(k.i, |elems|).value := v]))
      else Err(BadAccess)
    case _ => Err(BadAccess)
  }

  /** The step at the end of the descent: append to a list, turn a repeated key into a list, or store. */
  function Store(t: Value, k: Key, v: Value): Result<Value> {
    var present :- Contains(t, k);
    if present then
      var old_ :- GetItem(t, k);
      SetItem(t, k, if old_.List? then List(old_.elems + [v]) else List([old_, v]))
    else SetItem(t, k, v)
  }

  /** What merging the branch (k, v) makes of the tree `t`. */
  function Merge(t: Value, k: Key, v: Value): Result<Value>
    decreases v
  {
    var present :- Contains(t, k);
    if present && v.Dict? then
      if v.items == [] then Err(BadAccess)
      else
        var child :- GetItem(t, k);
        var last := v.items[|v.items| - 1];
        var merged :- Merge(child, last.0, last.1);
        SetItem(t, k, merged)
    else Store(t, k, v)
  }

  function MergeAll(t: Value, branches: seq<(Key, Value)>): Result<Value>
    decreases |branches|
  {
    if branches == [] then Ok(t)
    else
      var next :- Merge(t, branches[0].0, branches[0].1);
      MergeAll(next, branches[1..])
  }

  // Normalising.

  /** No dictionary in `v`, itself included, is empty. */
  ghost predicate Filled(v: Value)
    decreases v
  {
    match v
    case Dict(items) => items != [] && forall i :: 0 <= i < |items| ==> Filled(items[i].1)
    case List(elems) => forall i :: 0 <= i < |elems| ==> Filled(elems[i])
    case _ => true
  }

  ghost predicate FilledItems(items: seq<(Key, Value)>) {
    forall i :: 0 <= i < |items| ==> Filled(items[i].1)
  }

  /** An int-keyed dictionary inside a dictionary becomes a list, an ''-keyed one unwraps to its first value. */
  function NormalizeItem(v: Value): Value
    requires Filled(v)
    decreases v, 1
  {
    if v.Dict? then
      if v.items[0].0.IntKey? then List(NormalizeValues(v.items))
      else if v.items[0].0 == StrKey("") then v.items[0].1
      else Dict(NormalizeItems(v.items))
    else v
  }

  function NormalizeItems(items: seq<(Key, Value)>): (r: seq<(Key, Value)>)
    requires FilledItems(items)
    ensures |r| == |items|
    decreases items, 0
  {
    if items == [] then []
    else
      var (k, v) := items[0];
      assert v < items[0];
      [(k, NormalizeItem(v))] + NormalizeItems(items[1..])
  }

  /** `_normalize` of each value. */
  function NormalizeValues(items: seq<(Key, Value)>): (r: seq<Value>)
    requires FilledItems(items)
    ensures |r| == |items|
    decreases items, 0
  {
    if items == [] then []
    else
      var (k, v) := items[0];
      assert v < items[0];
      [Normalize(v)] + NormalizeValues(items[1..])
  }

  function Normalize(v: Value): Value
    requires v.Dict? ==> FilledItems(v.items)
    requires !v.Dict? ==> Filled(v)
    decreases v, 0
  {
    if v.Dict? then Dict(NormalizeItems(v.items)) else v
  }

  // Parsing.

  /** `parse_qsl` drops pairs with a blank value. */
  function DropBlank(pairs: seq<(string, string)>): seq<(string, string)> {
    Filter(pairs, NonBlank())
  }

  function NonBlank(): ((string, string)) -> bool {
    (p: (string, string)) => p.1 != ""
  }

  function ParseBranches(t: Value, pairs: seq<(string, string)>): Result<Value>
    decreases |pairs|
  {
    if pairs == [] then Ok(t)
    else
      var branch :- ParserHelper(pairs[0].0, pairs[0].1);
      var next :- Merge(t, branch.0, branch.1);
      ParseBranches(next, pairs[1..])
  }

  /** `parse_query` behind the percent-decoding: drop blanks, merge pair by pair, normalise. */
  function ParseQuery(pairs: seq<(string, string)>): Result<Value> {
    var tree :- ParseBranches(Dict([]), DropBlank(pairs));
    ParsedIsFilled(Dict([]), DropBlank(pairs));
    Ok(Normalize(tree))
  }

  /** The tree under construction: a dictionary whose values hold no empty dictionary. */
  ghost predicate Root(v: Value) {
    v.Dict? && FilledItems(v.items)
  }

  /** A value that `Merge` can hold: filled, or the root itself. */
  ghost predicate Holdable(v: Value) {
    Root(v) || Filled(v)
  }

  lemma {:induction false} HelperIsFilled(key: string, val: string)
    ensures ParserHelper(key, val).Ok? ==> Filled(ParserHelper(key, val).value.1)
    decreases |key|
  {
    var startBracket, endBracket := Find(key, '[', 0), Find(key, ']', 0);
    if HasVariableName(key) {
      HelperIsFilled(key[startBracket..], val);
    } else if HasGroups(key, 0, 2) {
      HelperIsFilled(key[endBracket + 1..], val);
    }
  }

  lemma SetKeepsFilled(t: Value, k: Key, v: Value)
    requires Holdable(t) && Filled(v) && SetItem(t, k, v).Ok?
    ensures Filled(SetItem(t, k, v).value)
    ensures SetItem(t, k, v).value.Dict? == t.Dict?
  {
  }

  /** Merging a filled branch leaves the tree filled, so normalising never meets an empty dictionary. */
  lemma {:induction false} MergeKeepsFilled(t: Value, k: Key, v: Value)
    requires Holdable(t) && Filled(v) && Merge(t, k, v).Ok?
    ensures Filled(Merge(t, k, v).value)
    ensures Merge(t, k, v).value.Dict? == t.Dict?
    decreases v
  {
    if Contains(t, k).value {
      var child := GetItem(t, k).value;
      assert Filled(child);
      if v.Dict? {
        var last := v.items[|v.items| - 1];
        MergeKeepsFilled(child, last.0, last.1);
        SetKeepsFilled(t, k, Merge(child, last.0, last.1).value);
      } else {
        SetKeepsFilled(t, k, if child.List? then List(child.elems + [v]) else List([child, v]));
      }
    } else {
      SetKeepsFilled(t, k, v);
    }
  }

  lemma {:induction false} ParsedIsFilled(t: Value, pairs: seq<(string, string)>)
    requires Root(t)
    ensures ParseBranches(t, pairs).Ok? ==> Root(ParseBranches(t, pairs).value)
    decreases |pairs|
  {
    if pairs != [] {
      var branch := ParserHelper(pairs[0].0, pairs[0].1);
      HelperIsFilled(pairs[0].0, pairs[0].1);
      if branch.Ok? && Merge(t, branch.value.0, branch.value.1).Ok? {
        MergeKeepsFilled(t, branch.value.0, branch.value.1);
        ParsedIsFilled(Merge(t, branch.value.0, branch.value.1).value, pairs[1..]);
      }
    }
  }

  /** The containers above the one being looked at, outermost first, each with the key that leads on. */
  datatype Frame = Frame(container: Value, key: Key)

  /** The whole tree, once the innermost container has become `t`. */
  function Plug(frames: seq<Frame>, t: Value): Result<Value>
    decreases |frames|
  {
    if frames == [] then Ok(t)
    else
      var f := frames[|frames| - 1];
      var up :- SetItem(f.container, f.key, t);
      Plug(frames[..|frames| - 1], up)
  }

  /** The descending loop of `parse_query` for one branch; the frames stand for Python's references upwards. */
  method MergeByDescent(t: Value, k0: Key, v0: Value) returns (r: Result<Value>)
    ensures r == Merge(t, k0, v0)
  {
    var frames: seq<Frame> := [];
    var temp, k, v := t, k0, v0;
    while true
      invariant Merge(t, k0, v0)
                == var merged := Merge(temp, k, v); if merged.Ok? then Plug(frames, merged.value) else merged
      decreases v
    {
      var present := Contains(temp, k);
      if present.Err? {
        return present.PropagateFailure();
      }
      if !(present.value && v.Dict?) {
        break;
      }
      if v.items == [] {
        return Err(BadAccess);
      }
      var child := GetItem(temp, k);
      if child.Err? {
        return child;
      }
      var last := v.items[|v.items| - 1];
      ghost var frame := Frame(temp, k);
      assert (frames + [frame])[..|frames|] == frames;
      frames := frames + [Frame(temp, k)];
      temp, k, v := child.value, last.0, last.1;
    }
    var stored := Store(temp, k, v);
    if stored.Err? {
      return stored;
    }
    r := Plug(frames, stored.value);
  }

  method ParseQueryByLoops(pairs: seq<(string, string)>) returns (r: Result<Value>)
    ensures r == ParseQuery(pairs)
  {
    var kept := DropBlank(pairs);
    var queryDict := Dict([]);
    for i := 0 to |kept|
      invariant Root(queryDict)
      invariant ParseBranches(Dict([]), kept) == ParseBranches(queryDict, kept[i..])
    {
      assert kept[i..][1..] == kept[i + 1..];
      var branch := ParserHelper(kept[i].0, kept[i].1);
      if branch.Err? {
        return branch.PropagateFailure();
      }
      HelperIsFilled(kept[i].0, kept[i].1);
      var merged := MergeByDescent(queryDict, branch.value.0, branch.value.1);
      if merged.Err? {
        return merged;
      }
      MergeKeepsFilled(queryDict, branch.value.0, branch.value.1);
      queryDict := merged.value;
    }
    r := Ok(Normalize(queryDict));
  }
}
