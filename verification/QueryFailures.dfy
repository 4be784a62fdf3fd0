/** When parsing fails, and how. */
module QueryFailures {
  import opened Common
  import opened QueryParser
  import opened QueryRoundTrip
  import QueryLists

  // Branches as paths.

  /** A chain of single-item dictionaries that ends in text or a number. */
  predicate IsChain(v: Value) {
    match v
    case Dict(items) => |items| == 1 && IsChain(items[0].1)
    case List(_) => false
    case _ => true
  }

  /** The keys along a chain. */
  function KeysOf(v: Value): seq<Key>
    requires IsChain(v)
  {
    if v.Dict? then [v.items[0].0] + KeysOf(v.items[0].1) else []
  }

  predicate IsBranch(b: (Key, Value)) {
    IsChain(b.1)
  }

  /** The keys a branch leads along. */
  function PathOf(b: (Key, Value)): (path: seq<Key>)
    requires IsBranch(b)
    ensures path != [] && path[0] == b.0
  {
    [b.0] + KeysOf(b.1)
  }

  predicate ProperPrefix(a: seq<Key>, b: seq<Key>) {
    |a| < |b| && a == b[..|a|]
  }

  lemma {:induction false} HelperGivesBranch(key: string, val: string)
    ensures ParserHelper(key, val).Ok? ==> IsBranch(ParserHelper(key, val).value)
    decreases |key|
  {
    var open, close := Find(key, '[', 0), Find(key, ']', 0);
    if HasVariableName(key) {
      HelperGivesBranch(key[open..], val);
      OneMoreKey(StrKey(key[..open]), ParserHelper(key[open..], val));
    } else if HasGroups(key, 0, 2) {
      HelperGivesBranch(key[close + 1..], val);
      if ToKey(GetKey(key).value).Ok? {
        OneMoreKey(ToKey(GetKey(key).value).value, ParserHelper(key[close + 1..], val));
      }
    } else {
      TextIsChain(val, key == "[]");
    }
  }

  lemma OneMoreKey(k: Key, inner: Result<(Key, Value)>)
    requires inner.Ok? ==> IsBranch(inner.value)
    ensures inner.Ok? ==> IsBranch((k, Dict([inner.value])))
  {
  }

  lemma TextIsChain(val: string, bracketed: bool)
    ensures ToValueText(val, bracketed).Ok? ==> IsChain(ToValueText(val, bracketed).value)
  {
  }

  // Where a merge is blocked.

  /** Following `path` through the dictionaries of `t` comes to something else before its last key. */
  predicate Blocked(t: Value, path: seq<Key>)
    requires path != []
    decreases |path|
  {
    if !t.Dict? then true
    else HasKey(t.items, path[0]) && |path| > 1 && Blocked(t.items[PositionOf(t.items, path[0])].1, path[1..])
  }

  predicate AllNames(path: seq<Key>) {
    forall i :: 0 <= i < |path| ==> path[i].StrKey?
  }

  /** Only a blocked branch fails to merge, and with `BadAccess`; a blocked one without list indices always does. */
  lemma {:induction false} MergeFailsWhenBlocked(t: Value, b: (Key, Value))
    requires IsBranch(b)
    ensures Merge(t, b.0, b.1).Err? ==> Merge(t, b.0, b.1).error == BadAccess && Blocked(t, PathOf(b))
    ensures AllNames(PathOf(b)) && Blocked(t, PathOf(b)) ==> Merge(t, b.0, b.1).Err?
    decreases b.1
  {
    var (k, v) := b;
    if t.Dict? && HasKey(t.items, k) && v.Dict? {
      var next := v.items[0];
      assert PathOf(b)[1..] == PathOf(next);
      assert AllNames(PathOf(b)) ==> AllNames(PathOf(next)) by {
        assert forall i :: 0 <= i < |PathOf(next)| ==> PathOf(next)[i] == PathOf(b)[i + 1];
      }
      MergeFailsWhenBlocked(t.items[PositionOf(t.items, k)].1, next);
    } else if !t.Dict? {
      MergeKeepsKind(t, b);
    }
  }

  /** Into anything but a dictionary only list indices merge, and it stays what it is. */
  lemma {:induction false} MergeKeepsKind(t: Value, b: (Key, Value))
    requires IsBranch(b)
    ensures Merge(t, b.0, b.1).Ok? ==> Merge(t, b.0, b.1).value.Dict? == t.Dict?
    ensures !t.Dict? && Merge(t, b.0, b.1).Ok? ==> b.0.IntKey?
    ensures Merge(t, b.0, b.1).Err? ==> Merge(t, b.0, b.1).error == BadAccess
    decreases b.1
  {
    if b.1.Dict? && Contains(t, b.0).Ok? && Contains(t, b.0).value && GetItem(t, b.0).Ok? {
      MergeKeepsKind(GetItem(t, b.0).value, b.1.items[0]);
    }
  }

  // What merging blocks.

  lemma ConsPrefix(a: Key, x: seq<Key>, b: Key, y: seq<Key>)
    ensures ProperPrefix([a] + x, [b] + y) <==> a == b && ProperPrefix(x, y)
  {
    if |x| < |y| {
      assert ([b] + y)[..|x| + 1] == [b] + y[..|x|];
      assert ([a] + x)[0] == a && ([a] + x)[1..] == x;
      assert ([b] + y[..|x|])[0] == b && ([b] + y[..|x|])[1..] == y[..|x|];
    }
  }

  lemma UnconsPrefix(m: seq<Key>, path: seq<Key>)
    requires m != [] && path != []
    ensures ProperPrefix(m, path) <==> m[0] == path[0] && ProperPrefix(m[1..], path[1..])
  {
    assert m == [m[0]] + m[1..] && path == [path[0]] + path[1..];
    ConsPrefix(m[0], m[1..], path[0], path[1..]);
  }

  /** A fresh chain blocks exactly the paths that go on behind its end. */
  lemma {:induction false} ChainBlocks(v: Value, path: seq<Key>)
    requires IsChain(v) && path != []
    ensures Blocked(v, path) <==> ProperPrefix(KeysOf(v), path)
    decreases v
  {
    if v.Dict? {
      var (k, rest) := v.items[0];
      UnconsPrefix(KeysOf(v), path);
      assert KeysOf(v)[1..] == KeysOf(rest);
      assert HasKey(v.items, path[0]) <==> k == path[0];
      if |path| > 1 {
        ChainBlocks(rest, path[1..]);
      }
    }
  }

  /** All keys but `k` have the items they had. */
  ghost predicate KeepsOthers(items: seq<(Key, Value)>, items': seq<(Key, Value)>, k: Key) {
    forall o :: o != k ==>
      && (HasKey(items', o) <==> HasKey(items, o))
      && (HasKey(items, o) ==> items'[PositionOf(items', o)] == items[PositionOf(items, o)])
  }

  lemma MergeAtNewKey(items: seq<(Key, Value)>, k: Key, v: Value)
    requires !HasKey(items, k)
    ensures Merge(Dict(items), k, v) == Ok(Dict(items + [(k, v)]))
  {
  }

  lemma MergeBelowKey(items: seq<(Key, Value)>, k: Key, v: Value)
    requires HasKey(items, k) && v.Dict? && |v.items| == 1
    ensures var at := PositionOf(items, k);
            Merge(Dict(items), k, v)
            == var below := Merge(items[at].1, v.items[0].0, v.items[0].1);
               if below.Ok? then Ok(Dict(items[at := (k, below.value)])) else below
  {
  }

  lemma MergeAtOldKey(items: seq<(Key, Value)>, k: Key, v: Value) returns (elems: seq<Value>)
    requires HasKey(items, k) && !v.Dict?
    ensures Merge(Dict(items), k, v) == Ok(Dict(items[PositionOf(items, k) := (k, List(elems))]))
  {
    var old_ := items[PositionOf(items, k)].1;
    elems := if old_.List? then old_.elems + [v] else [old_, v];
  }

  /** The value under `k` after a merge at `k`: what was merged below, a list, or the new value. */
  lemma MergedValue(t: Value, b: (Key, Value), t': Value)
    requires t.Dict? && IsBranch(b) && Merge(t, b.0, b.1) == Ok(t')
    ensures t'.Dict? && HasKey(t'.items, b.0)
    ensures KeepsOthers(t.items, t'.items, b.0)
    ensures var x' := t'.items[PositionOf(t'.items, b.0)].1;
            if !HasKey(t.items, b.0) then x' == b.1
            else if b.1.Dict? then
              Merge(t.items[PositionOf(t.items, b.0)].1, b.1.items[0].0, b.1.items[0].1) == Ok(x')
            else x'.List?
  {
    var (k, v) := b;
    if !HasKey(t.items, k) {
      MergeAtNewKey(t.items, k, v);
      AddedAtEnd(t.items, k, v);
    } else if v.Dict? {
      MergeBelowKey(t.items, k, v);
      var at := PositionOf(t.items, k);
      SetAtKey(t.items, k, Merge(t.items[at].1, v.items[0].0, v.items[0].1).value);
    } else {
      var elems := MergeAtOldKey(t.items, k, v);
      SetAtKey(t.items, k, List(elems));
    }
  }

  lemma FirstPosition(items: seq<(Key, Value)>, k: Key, i: nat)
    requires i < |items| && items[i].0 == k && forall j :: 0 <= j < i ==> items[j].0 != k
    ensures HasKey(items, k) && PositionOf(items, k) == i
  {
  }

  lemma SetAtKey(items: seq<(Key, Value)>, k: Key, x: Value)
    requires HasKey(items, k)
    ensures var items' := items[PositionOf(items, k) := (k, x)];
            && HasKey(items', k) && items'[PositionOf(items', k)].1 == x
            && KeepsOthers(items, items', k)
  {
    var at := PositionOf(items, k);
    var items' := items[at := (k, x)];
    FirstPosition(items', k, at);
    forall o | o != k
      ensures HasKey(items', o) <==> HasKey(items, o)
      ensures HasKey(items, o) ==> items'[PositionOf(items', o)] == items[PositionOf(items, o)]
    {
      if HasKey(items, o) {
        FirstPosition(items', o, PositionOf(items, o));
      }
      if HasKey(items', o) {
        FirstPosition(items, o, PositionOf(items', o));
      }
    }
  }

  lemma AddedAtEnd(items: seq<(Key, Value)>, k: Key, x: Value)
    requires !HasKey(items, k)
    ensures var items' := items + [(k, x)];
            && HasKey(items', k) && items'[PositionOf(items', k)].1 == x
            && KeepsOthers(items, items', k)
  {
    var items' := items + [(k, x)];
    FirstPosition(items', k, |items|);
    forall o | o != k
      ensures HasKey(items', o) <==> HasKey(items, o)
      ensures HasKey(items, o) ==> items'[PositionOf(items', o)] == items[PositionOf(items, o)]
    {
      if HasKey(items, o) {
        FirstPosition(items', o, PositionOf(items, o));
      }
      if HasKey(items', o) {
        FirstPosition(items, o, PositionOf(items', o));
      }
    }
  }

  /** A merge blocks exactly the paths that go on behind its own, besides those that were blocked before. */
  lemma {:induction false} MergeBlocks(t: Value, b: (Key, Value), t': Value, path: seq<Key>)
    requires IsBranch(b) && Merge(t, b.0, b.1) == Ok(t') && path != []
    ensures Blocked(t', path) <==> Blocked(t, path) || (t.Dict? && ProperPrefix(PathOf(b), path))
    decreases b.1
  {
    MergeKeepsKind(t, b);
    if t.Dict? {
      MergedValue(t, b, t');
      UnconsPrefix(PathOf(b), path);
      assert PathOf(b)[1..] == KeysOf(b.1);
      if path[0] == b.0 && |path| > 1 {
        var x' := t'.items[PositionOf(t'.items, b.0)].1;
        if !HasKey(t.items, b.0) {
          ChainBlocks(b.1, path[1..]);
        } else if b.1.Dict? {
          var x, next := t.items[PositionOf(t.items, b.0)].1, b.1.items[0];
          MergeBlocks(x, next, x', path[1..]);
          assert KeysOf(b.1) == PathOf(next);
        }
      }
    }
  }

  // Whole parses.

  ghost predicate AllBranches(branches: seq<(Key, Value)>) {
    forall i :: 0 <= i < |branches| ==> IsBranch(branches[i])
  }

  /** Some branch before position `n` ends where `path` goes on. */
  ghost predicate CutShort(branches: seq<(Key, Value)>, n: nat, path: seq<Key>)
    requires n <= |branches| && AllBranches(branches)
  {
    exists i :: 0 <= i < n && ProperPrefix(PathOf(branches[i]), path)
  }

  /** After merging from nothing, a path is blocked exactly if a merged branch ends where it goes on. */
  lemma {:induction false} TreeBlocks(branches: seq<(Key, Value)>, path: seq<Key>)
    requires AllBranches(branches) && path != []
    requires MergeAll(Dict([]), branches).Ok?
    ensures Blocked(MergeAll(Dict([]), branches).value, path) <==> CutShort(branches, |branches|, path)
    ensures MergeAll(Dict([]), branches).value.Dict?
    decreases |branches|
  {
    if branches != [] {
      var n := |branches| - 1;
      var init, last := branches[..n], branches[n];
      LastMerge(Dict([]), branches);
      var t := MergeAll(Dict([]), init).value;
      TreeBlocks(init, path);
      MergeKeepsKind(t, last);
      MergeBlocks(t, last, MergeAll(Dict([]), branches).value, path);
      assert forall i :: 0 <= i < n ==> init[i] == branches[i];
      OneMoreCut(branches, n, path);
    }
  }

  lemma OneMoreCut(branches: seq<(Key, Value)>, n: nat, path: seq<Key>)
    requires n < |branches| && AllBranches(branches)
    ensures AllBranches(branches[..n])
    ensures CutShort(branches, n + 1, path)
            <==> CutShort(branches[..n], n, path) || ProperPrefix(PathOf(branches[n]), path)
  {
    if CutShort(branches[..n], n, path) {
      var i :| 0 <= i < n && ProperPrefix(PathOf(branches[..n][i]), path);
      assert ProperPrefix(PathOf(branches[i]), path);
    }
    if i :| 0 <= i < n + 1 && ProperPrefix(PathOf(branches[i]), path) {
      assert i < n ==> branches[..n][i] == branches[i];
    }
  }

  lemma {:induction false} LastMerge(t: Value, branches: seq<(Key, Value)>)
    requires branches != []
    ensures var n := |branches| - 1;
            MergeAll(t, branches)
            == var init := MergeAll(t, branches[..n]);
               if init.Ok? then Merge(init.value, branches[n].0, branches[n].1) else init
    decreases |branches|
  {
    var n := |branches| - 1;
    if n > 0 {
      var next := Merge(t, branches[0].0, branches[0].1);
      assert branches[..n][1..] == branches[1..][..n - 1] && branches[..n][0] == branches[0];
      if next.Ok? {
        LastMerge(next.value, branches[1..]);
      }
    } else if Merge(t, branches[0].0, branches[0].1).Ok? {
      assert branches[1..] == [];
    }
  }

  /** Two branches clash: the earlier one ends where the later one goes on. */
  ghost predicate Clash(branches: seq<(Key, Value)>)
    requires AllBranches(branches)
  {
    exists j :: 0 <= j < |branches| && CutShort(branches, j, PathOf(branches[j]))
  }

  ghost predicate NamesOnly(branches: seq<(Key, Value)>)
    requires AllBranches(branches)
  {
    forall i :: 0 <= i < |branches| ==> AllNames(PathOf(branches[i]))
  }

  /** Merging fails only on a clash, with `BadAccess`; without list indices it fails exactly on a clash. */
  lemma {:induction false} MergeAllFails(branches: seq<(Key, Value)>)
    requires AllBranches(branches)
    ensures MergeAll(Dict([]), branches).Err? ==> MergeAll(Dict([]), branches).error == BadAccess && Clash(branches)
    ensures NamesOnly(branches) && Clash(branches) ==> MergeAll(Dict([]), branches).Err?
    decreases |branches|
  {
    if branches != [] {
      var n := |branches| - 1;
      var init, last := branches[..n], branches[n];
      LastMerge(Dict([]), branches);
      MergeAllFails(init);
      OneMoreClash(branches, n);
      if MergeAll(Dict([]), init).Ok? {
        TreeBlocks(init, PathOf(last));
        MergeFailsWhenBlocked(MergeAll(Dict([]), init).value, last);
      }
    }
  }

  lemma OneMoreClash(branches: seq<(Key, Value)>, n: nat)
    requires |branches| == n + 1 && AllBranches(branches)
    ensures AllBranches(branches[..n])
    ensures Clash(branches) <==> Clash(branches[..n]) || CutShort(branches[..n], n, PathOf(branches[n]))
    ensures NamesOnly(branches) ==> NamesOnly(branches[..n]) && AllNames(PathOf(branches[n]))
  {
    SameCut(branches, n, n, PathOf(branches[n]));
    if Clash(branches[..n]) {
      EarlierClash(branches, n);
    }
    if Clash(branches) && !CutShort(branches, n, PathOf(branches[n])) {
      ClashIsEarlier(branches, n);
    }
  }

  lemma EarlierClash(branches: seq<(Key, Value)>, n: nat)
    requires |branches| == n + 1 && AllBranches(branches) && AllBranches(branches[..n]) && Clash(branches[..n])
    ensures Clash(branches)
  {
    var j :| 0 <= j < n && CutShort(branches[..n], j, PathOf(branches[..n][j]));
    SameCut(branches, n, j, PathOf(branches[j]));
  }

  lemma ClashIsEarlier(branches: seq<(Key, Value)>, n: nat)
    requires |branches| == n + 1 && AllBranches(branches) && AllBranches(branches[..n])
    requires Clash(branches) && !CutShort(branches, n, PathOf(branches[n]))
    ensures Clash(branches[..n])
  {
    var j :| 0 <= j < |branches| && CutShort(branches, j, PathOf(branches[j]));
    SameCut(branches, n, j, PathOf(branches[j]));
    assert CutShort(branches[..n], j, PathOf(branches[..n][j]));
  }

  lemma SameCut(branches: seq<(Key, Value)>, n: nat, j: nat, path: seq<Key>)
    requires j <= n <= |branches| && AllBranches(branches)
    ensures AllBranches(branches[..n])
    ensures CutShort(branches, j, path) <==> CutShort(branches[..n], j, path)
  {
    assert forall i :: 0 <= i < j ==> branches[..n][i] == branches[i];
    if i :| 0 <= i < j && ProperPrefix(PathOf(branches[i]), path) {
      assert ProperPrefix(PathOf(branches[..n][i]), path);
    }
    if i :| 0 <= i < j && ProperPrefix(PathOf(branches[..n][i]), path) {
      assert ProperPrefix(PathOf(branches[i]), path);
    }
  }

  /** Every key parses. */
  predicate KeysParse(pairs: seq<(string, string)>) {
    forall i :: 0 <= i < |pairs| ==> ParserHelper(pairs[i].0, pairs[i].1).Ok?
  }

  /** The branches of pairs whose keys parse. */
  function BranchesOf(pairs: seq<(string, string)>): (r: seq<(Key, Value)>)
    requires KeysParse(pairs)
    ensures |r| == |pairs| && forall i :: 0 <= i < |r| ==> ParserHelper(pairs[i].0, pairs[i].1) == Ok(r[i])
  {
    seq(|pairs|, i requires 0 <= i < |pairs| => ParserHelper(pairs[i].0, pairs[i].1).value)
  }

  lemma ParsedAreBranches(pairs: seq<(string, string)>)
    requires KeysParse(pairs)
    ensures AllBranches(BranchesOf(pairs))
  {
    forall i | 0 <= i < |pairs|
      ensures IsBranch(BranchesOf(pairs)[i])
    {
      HelperGivesBranch(pairs[i].0, pairs[i].1);
    }
  }

  lemma {:induction false} ParseIsMerge(t: Value, pairs: seq<(string, string)>)
    requires KeysParse(pairs)
    ensures ParseBranches(t, pairs) == MergeAll(t, BranchesOf(pairs))
    decreases |pairs|
  {
    if pairs != [] {
      var b := BranchesOf(pairs)[0];
      assert BranchesOf(pairs)[1..] == BranchesOf(pairs[1..]);
      if Merge(t, b.0, b.1).Ok? {
        ParseIsMerge(Merge(t, b.0, b.1).value, pairs[1..]);
      }
    }
  }

  /** `n` is the position of the first pair whose key does not parse, if there is one. */
  ghost predicate FirstRefused(pairs: seq<(string, string)>, n: nat) {
    n <= |pairs| && KeysParse(pairs[..n]) && (n < |pairs| ==> ParserHelper(pairs[n].0, pairs[n].1).Err?)
  }

  /** Such a position always exists. */
  lemma {:induction false} FirstRefusedExists(pairs: seq<(string, string)>, from: nat) returns (n: nat)
    requires from <= |pairs| && KeysParse(pairs[..from])
    ensures FirstRefused(pairs, n)
    decreases |pairs| - from
  {
    if from == |pairs| || ParserHelper(pairs[from].0, pairs[from].1).Err? {
      n := from;
    } else {
      assert pairs[..from + 1] == pairs[..from] + [pairs[from]];
      n := FirstRefusedExists(pairs, from + 1);
    }
  }

  lemma ParseUpTo(t: Value, pairs: seq<(string, string)>, n: nat)
    requires FirstRefused(pairs, n)
    ensures ParseBranches(t, pairs)
            == var before := ParseBranches(t, pairs[..n]);
               if before.Err? || n == |pairs| then before
               else Err(ParserHelper(pairs[n].0, pairs[n].1).error)
  {
    assert pairs == pairs[..n] + pairs[n..];
    QueryLists.ParseConcat(t, pairs[..n], pairs[n..]);
    if n < |pairs| {
      assert pairs[n..][0] == pairs[n];
    }
  }

  /**
   Why a parse fails. Let `n` be the position of the first pair whose key does not parse. The parse fails with that
   pair's error, or with `BadAccess` on a clash of two earlier pairs: one ends where a later one goes on, as in a=1,
   a[b]=2. Without list indices in the earlier keys, `BadAccess` comes exactly on a clash.
   */
  lemma ParseFails(pairs: seq<(string, string)>, n: nat)
    requires FirstRefused(DropBlank(pairs), n)
    ensures AllBranches(BranchesOf(DropBlank(pairs)[..n]))
    ensures var (kept, result) := (DropBlank(pairs), ParseQuery(pairs));
            var branches := BranchesOf(kept[..n]);
            && (result.Err? ==>
                  || (result.error == BadAccess && Clash(branches))
                  || (n < |kept| && result.error == ParserHelper(kept[n].0, kept[n].1).error))
            && (n < |kept| ==> result.Err?)
            && (NamesOnly(branches) ==> (result == Err(BadAccess) <==> Clash(branches)))
  {
    var kept := DropBlank(pairs);
    ParseUpTo(Dict([]), kept, n);
    ParseIsMerge(Dict([]), kept[..n]);
    ParsedAreBranches(kept[..n]);
    MergeAllFails(BranchesOf(kept[..n]));
    if n < |kept| {
      HelperErrors(kept[n].0, kept[n].1);
    }
  }

  // What the helper refuses.

  /** `text` holds a digit that `isdigit()` accepts and `int()` refuses. */
  predicate HasRefusedDigit(text: string) {
    exists i :: 0 <= i < |text| && IsDigit(text[i]) && DecimalValue(text[i]).None?
  }

  lemma {:induction false} NoValue(s: string)
    requires DigitsValue(s).None?
    ensures exists i :: 0 <= i < |s| && DecimalValue(s[i]).None?
  {
    var n := |s| - 1;
    if DecimalValue(s[n]).Some? {
      NoValue(s[..n]);
      var i :| 0 <= i < n && DecimalValue(s[..n][i]).None?;
      assert s[i] == s[..n][i];
    }
  }

  lemma RefusedNumber(s: string)
    requires IsNumber(s) && ParseInt(s).None?
    ensures HasRefusedDigit(s)
  {
    if s[0] == '-' || s[0] == '+' {
      NoValue(s[1..]);
      var i :| 0 <= i < |s[1..]| && DecimalValue(s[1..][i]).None?;
      assert s[i + 1] == s[1..][i];
    } else {
      NoValue(s);
    }
  }

  lemma PartHasRefusedDigit(s: string, from: nat, to: nat)
    requires from <= to <= |s| && HasRefusedDigit(s[from..to])
    ensures HasRefusedDigit(s)
  {
    var part := s[from..to];
    var i :| 0 <= i < |part| && IsDigit(part[i]) && DecimalValue(part[i]).None?;
    assert s[from + i] == part[i];
  }

  lemma RestHasRefusedDigit(s: string, from: nat)
    requires from <= |s|
    ensures HasRefusedDigit(s[from..]) ==> HasRefusedDigit(s)
  {
    if HasRefusedDigit(s[from..|s|]) {
      PartHasRefusedDigit(s, from, |s|);
    }
  }

  /** The bracketed key is a part of the text. */
  lemma KeyIsPart(s: string) returns (from: nat, to: nat)
    requires !HasVariableName(s) && GetKey(s).Some?
    ensures from <= to <= |s| && GetKey(s).value == s[from..to]
  {
    var start, end := Find(s, '[', 0), Find(s, ']', 0);
    from := if s[start + 1] == '\'' then start + 2 else start + 1;
    to := if s[end - 1] == '\'' then end - 1 else end;
    if from > to {
      from, to := 0, 0;
    }
  }

  lemma KeyTextErrors(key: string)
    requires !HasVariableName(key) && GetKey(key).Some? && ToKey(GetKey(key).value).Err?
    ensures ToKey(GetKey(key).value) == Err(BadNumber) && HasRefusedDigit(key)
  {
    var from, to := KeyIsPart(key);
    RefusedNumber(key[from..to]);
    PartHasRefusedDigit(key, from, to);
  }

  lemma ValueErrors(val: string, bracketed: bool)
    requires ToValueText(val, bracketed).Err?
    ensures ToValueText(val, bracketed) == Err(BadNumber) && HasRefusedDigit(val)
  {
    RefusedNumber(val);
  }

  predicate Refused(key: string, val: string) {
    HasRefusedDigit(key) || HasRefusedDigit(val)
  }

  lemma RestRefused(key: string, from: nat, val: string)
    requires from <= |key| && Refused(key[from..], val)
    ensures Refused(key, val)
  {
    RestHasRefusedDigit(key, from);
  }

  /** The helper fails with `MalformedKey`, or with `BadNumber` on a digit in the key or value that `int()` refuses. */
  lemma {:induction false} HelperErrors(key: string, val: string)
    ensures var r := ParserHelper(key, val);
            r.Err? ==> r.error == MalformedKey || (r.error == BadNumber && Refused(key, val))
    decreases |key|
  {
    if ParserHelper(key, val).Err? && ParserHelper(key, val).error != MalformedKey {
      var open, close := Find(key, '[', 0), Find(key, ']', 0);
      if HasVariableName(key) {
        HelperErrors(key[open..], val);
        RestRefused(key, open, val);
      } else if open != -1 && ToKey(GetKey(key).value).Err? {
        KeyTextErrors(key);
      } else if HasGroups(key, 0, 2) {
        HelperErrors(key[close + 1..], val);
        RestRefused(key, close + 1, val);
      } else if open != -1 {
        ValueErrors(val, key == "[]");
      } else {
        RefusedNumber(key);
      }
    }
  }

  // One input.

  /** The pairs (a, x), (a[b], y) clash: the parse fails with an error that no caller expects. */
  lemma ValueThenDictionaryFails(a: string, b: string, x: string, y: string)
    requires GoodName(a) && GoodName(b) && x != "" && y != ""
    ensures var paths := [([StrKey(a)], x), ([StrKey(a), StrKey(b)], y)];
            GoodPaths(paths) && ParseQuery(Print(paths)) == Err(BadAccess)
  {
    var paths := [([StrKey(a)], x), ([StrKey(a), StrKey(b)], y)];
    assert GoodPath([StrKey(a)]) && GoodPath([StrKey(a), StrKey(b)]);
    PrintedPairsMerge(Dict([]), paths);
    BranchesClash(StrKey(a), StrKey(b), x, y);
    assert Branch([], x) == Str(x);
    assert Branch([], y) == Str(y) && Branch([StrKey(b)], y) == Dict([(StrKey(b), Str(y))]);
    assert Branches(paths) == [(StrKey(a), Str(x)), (StrKey(a), Dict([(StrKey(b), Str(y))]))];
  }

  lemma BranchesClash(a: Key, b: Key, x: string, y: string)
    requires a.StrKey? && b.StrKey?
    ensures MergeAll(Dict([]), [(a, Str(x)), (a, Dict([(b, Str(y))]))]) == Err(BadAccess)
  {
    var first, second := (a, Str(x)), (a, Dict([(b, Str(y))]));
    var branches := [first, second];
    assert IsBranch(first) && IsBranch(second);
    assert KeysOf(Str(x)) == [] && KeysOf(Dict([(b, Str(y))])) == [b];
    assert PathOf(first) == [a] && PathOf(second) == [a, b];
    assert ProperPrefix(PathOf(branches[0]), PathOf(branches[1]));
    assert CutShort(branches, 1, PathOf(branches[1]));
    MergeAllFails(branches);
  }

  // Bracketed keys that are not closed, and indices into collected lists.

  /** A key whose first bracket is never closed is malformed, with a name before it or without. */
  lemma UnclosedIsMalformed(name: string, rest: string, val: string)
    requires forall i :: 0 <= i < |name| ==> name[i] != '[' && name[i] != ']'
    requires forall i :: 0 <= i < |rest| ==> rest[i] != ']'
    ensures ParserHelper(name + ("[" + rest), val) == Err(MalformedKey)
  {
    UnclosedGroup(rest, val);
    if name == "" {
      assert name + ("[" + rest) == "[" + rest;
    } else {
      var key := name + ("[" + rest);
      assert forall i :: 0 <= i < |name| ==> key[i] == name[i];
      assert key[|name|] == '[' && key[|name|..] == "[" + rest;
      assert Find(key, '[', 0) == |name|;
    }
  }

  lemma UnclosedGroup(rest: string, val: string)
    requires forall i :: 0 <= i < |rest| ==> rest[i] != ']'
    ensures ParserHelper("[" + rest, val) == Err(MalformedKey)
  {
    var key := "[" + rest;
    assert forall i :: 1 <= i < |key| ==> key[i] == rest[i - 1];
    assert Find(key, '[', 0) == 0 && Find(key, ']', 0) == -1;
  }

  /** An index into a collected list replaces that element, counting from the end if negative; others fail. */
  lemma IndexAssigns(elems: seq<Value>, i: int, v: Value)
    requires Int(i) !in elems
    ensures Merge(List(elems), IntKey(i), v)
            == if 0 <= i < |elems| then Ok(List(elems[i := v]))
               else if -|elems| <= i < 0 then Ok(List(elems[|elems| + i := v]))
               else Err(BadAccess)
  {
  }
}
