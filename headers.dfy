/**
 * Header resolution of update-db.py (`normalize_headers`): each canonical
 * column is bound to the first CSV header that matches one of its aliases
 * after stripping and lower-casing.
 */
module Headers {
  import opened Optional
  import opened Strings
  import opened Config

  /**
   * The dict `{fn.strip(): fn for fn in fieldnames}`: its keys in insertion
   * order, and the header each key maps to (the last one with that stripped form).
   */
  datatype StrippedIndex = StrippedIndex(keys: seq<string>, original: map<string, string>)

  ghost predicate Indexes(d: StrippedIndex, fns: seq<string>) {
    && (forall k :: k in d.original <==> k in d.keys)
    && (forall k :: k in d.original ==> d.original[k] in fns && Strip(d.original[k]) == k)
    && (forall i :: 0 <= i < |fns| ==> Strip(fns[i]) in d.original)
  }

  function IndexStripped(fns: seq<string>): (d: StrippedIndex)
    ensures Indexes(d, fns)
    decreases |fns|
  {
    if fns == [] then StrippedIndex([], map[])
    else
      var d := IndexStripped(fns[..|fns| - 1]);
      var fn := fns[|fns| - 1];
      var k := Strip(fn);
      var d' := StrippedIndex(if k in d.original then d.keys else d.keys + [k], d.original[k := fn]);
      IndexStep(fns, d, d');
      d'
  }

  lemma IndexStep(fns: seq<string>, d: StrippedIndex, d': StrippedIndex)
    requires fns != [] && Indexes(d, fns[..|fns| - 1])
    requires var k := Strip(fns[|fns| - 1]);
      d' == StrippedIndex(if k in d.original then d.keys else d.keys + [k], d.original[k := fns[|fns| - 1]])
    ensures Indexes(d', fns)
  {
    var n := |fns|;
    var k := Strip(fns[n - 1]);
    forall k' | k' in d'.original
      ensures d'.original[k'] in fns && Strip(d'.original[k']) == k'
    {
      if k' != k {
        var v := d.original[k'];
        assert v in fns[..n - 1];
      }
    }
    forall i | 0 <= i < n
      ensures Strip(fns[i]) in d'.original
    {
      if i < n - 1 {
        assert fns[..n - 1][i] == fns[i];
      }
    }
  }

  /** The first stripped header, at or after `from`, equal to `alias` after lower-casing both. */
  function FirstMatch(keys: seq<string>, alias: string, from: nat): (r: Option<nat>)
    requires from <= |keys|
    ensures r.Some? ==> from <= r.value < |keys| && Lower(keys[r.value]) == Lower(alias)
    ensures r.Some? ==> forall t :: from <= t < r.value ==> Lower(keys[t]) != Lower(alias)
    ensures r.None? ==> forall t :: from <= t < |keys| ==> Lower(keys[t]) != Lower(alias)
    decreases |keys| - from
  {
    if from == |keys| then None
    else if Lower(keys[from]) == Lower(alias) then Some(from)
    else FirstMatch(keys, alias, from + 1)
  }

  /** The header bound to a column: the first alias (in order) that some header matches decides. */
  function ResolveField(aliases: seq<string>, d: StrippedIndex): Option<string>
    requires forall k :: k in d.keys ==> k in d.original
  {
    if aliases == [] then None
    else match FirstMatch(d.keys, aliases[0], 0)
      case Some(t) => Some(d.original[d.keys[t]])
      case None => ResolveField(aliases[1..], d)
  }

  /** The mapping built from the first `n` alias items, each item overwriting its column. */
  function MappingOf(items: seq<(string, seq<string>)>, d: StrippedIndex): map<string, string>
    requires forall k :: k in d.keys ==> k in d.original
  {
    if items == [] then map[]
    else
      var m := MappingOf(items[..|items| - 1], d);
      var (canon, aliases) := items[|items| - 1];
      match ResolveField(aliases, d)
      case Some(v) => m[canon := v]
      case None => m
  }

  /** The mapping `normalize_headers` returns, canonical column to header as given. */
  function HeaderMapping(fns: seq<string>): map<string, string> {
    MappingOf(HeaderAliases, IndexStripped(fns))
  }

  /**
   * Some header, stripped and lower-cased, equals the lower-cased form of one
   * of the aliases an item of `items` lists for column `c`.
   */
  ghost predicate HasMatchingHeader(items: seq<(string, seq<string>)>, fns: seq<string>, c: string) {
    exists j, i, a :: 0 <= j < |items| && items[j].0 == c && 0 <= i < |fns| && a in items[j].1 && Lower(Strip(fns[i])) == Lower(a)
  }

  /** Imperative form of `normalize_headers`: nested loops with early breaks. */
  method NormalizeHeaders(fieldnames: seq<string>) returns (mapping: map<string, string>)
    ensures mapping == HeaderMapping(fieldnames)
  {
    mapping := ResolveAll(HeaderAliases, fieldnames);
  }

  /** The loops of `normalize_headers`, over any ordered alias table. */
  method ResolveAll(items: seq<(string, seq<string>)>, fieldnames: seq<string>) returns (mapping: map<string, string>)
    ensures mapping == MappingOf(items, IndexStripped(fieldnames))
  {
    var lower := IndexStripped(fieldnames);
    mapping := map[];
    var i := 0;
    while i < |items|
      invariant 0 <= i <= |items|
      invariant mapping == MappingOf(items[..i], lower)
    {
      var (canon, aliases) := items[i];
      var found := ResolveAliases(aliases, lower);
      assert items[..i + 1][..i] == items[..i];
      if found.Some? {
        mapping := mapping[canon := found.value];
      }
      i := i + 1;
    }
    assert items[..i] == items;
  }

  /** The alias loop for one column: stops at the first alias some header matches. */
  method ResolveAliases(aliases: seq<string>, lower: StrippedIndex) returns (found: Option<string>)
    requires forall k :: k in lower.keys ==> k in lower.original
    ensures found == ResolveField(aliases, lower)
  {
    found := None;
    var j := 0;
    while j < |aliases|
      invariant 0 <= j <= |aliases|
      invariant found.None?
      invariant ResolveField(aliases[j..], lower) == ResolveField(aliases, lower)
    {
      var t := ScanHeaders(lower.keys, aliases[j]);
      if t.Some? {
        found := Some(lower.original[lower.keys[t.value]]);
        break;
      }
      assert aliases[j..][1..] == aliases[j + 1..];
      j := j + 1;
    }
  }

  /** The header loop for one alias: the position of the first stripped header that matches. */
  method ScanHeaders(keys: seq<string>, alias: string) returns (t: Option<nat>)
    ensures t == FirstMatch(keys, alias, 0)
  {
    var u := 0;
    while u < |keys|
      invariant 0 <= u <= |keys|
      invariant forall v :: 0 <= v < u ==> Lower(keys[v]) != Lower(alias)
    {
      if Lower(keys[u]) == Lower(alias) {
        return Some(u);
      }
      u := u + 1;
    }
    return None;
  }

  lemma {:induction false} ResolveFieldSound(aliases: seq<string>, d: StrippedIndex, fns: seq<string>)
    requires Indexes(d, fns)
    requires ResolveField(aliases, d).Some?
    ensures ResolveField(aliases, d).value in fns
    ensures exists a :: a in aliases && Lower(Strip(ResolveField(aliases, d).value)) == Lower(a)
  {
    match FirstMatch(d.keys, aliases[0], 0)
    case Some(t) =>
      assert Strip(d.original[d.keys[t]]) == d.keys[t];
    case None =>
      ResolveFieldSound(aliases[1..], d, fns);
      var a :| a in aliases[1..] && Lower(Strip(ResolveField(aliases, d).value)) == Lower(a);
      assert a in aliases;
  }

  lemma {:induction false} ResolveFieldComplete(aliases: seq<string>, d: StrippedIndex, k: string, a: string)
    requires forall k :: k in d.keys ==> k in d.original
    requires k in d.keys && a in aliases && Lower(k) == Lower(a)
    ensures ResolveField(aliases, d).Some?
  {
    match FirstMatch(d.keys, aliases[0], 0)
    case Some(_) =>
    case None =>
      var t :| 0 <= t < |d.keys| && d.keys[t] == k;
      assert a != aliases[0];
      assert a in aliases[1..];
      ResolveFieldComplete(aliases[1..], d, k, a);
  }

  /** A column is in the mapping exactly when one of its items resolves; its value is what one such item resolved to. */
  lemma {:induction false} MappingOfEntry(items: seq<(string, seq<string>)>, d: StrippedIndex, c: string)
    requires forall k :: k in d.keys ==> k in d.original
    ensures c in MappingOf(items, d) <==>
      exists j :: 0 <= j < |items| && items[j].0 == c && ResolveField(items[j].1, d).Some?
    ensures c in MappingOf(items, d) ==>
      exists j :: 0 <= j < |items| && items[j].0 == c && ResolveField(items[j].1, d) == Some(MappingOf(items, d)[c])
  {
    if items != [] {
      var n := |items|;
      var front := items[..n - 1];
      MappingOfEntry(front, d, c);
      forall j | 0 <= j < n - 1 ensures front[j] == items[j] { }
      var m := MappingOf(items, d);
      if c in m && !(items[n - 1].0 == c && ResolveField(items[n - 1].1, d).Some?) {
        var j :| 0 <= j < |front| && front[j].0 == c && ResolveField(front[j].1, d) == Some(MappingOf(front, d)[c]);
        assert items[j] == front[j];
      }
    }
  }

  /**
   * Every key of the mapping is a column some item names, and a column is
   * present exactly when some header matches one of its aliases; its value is
   * a header as given that matches one of them.
   */
  lemma MappingOfCharacterized(items: seq<(string, seq<string>)>, fns: seq<string>, c: string)
    ensures c in MappingOf(items, IndexStripped(fns)) <==> HasMatchingHeader(items, fns, c)
    ensures c in MappingOf(items, IndexStripped(fns)) ==>
      MappingOf(items, IndexStripped(fns))[c] in fns &&
      exists j, a :: 0 <= j < |items| && items[j].0 == c && a in items[j].1 &&
        Lower(Strip(MappingOf(items, IndexStripped(fns))[c])) == Lower(a)
  {
    var d := IndexStripped(fns);
    var m := MappingOf(items, d);
    MappingOfEntry(items, d, c);
    if c in m {
      var j :| 0 <= j < |items| && items[j].0 == c && ResolveField(items[j].1, d) == Some(m[c]);
      ResolveFieldSound(items[j].1, d, fns);
      var a :| a in items[j].1 && Lower(Strip(m[c])) == Lower(a);
      var i :| 0 <= i < |fns| && fns[i] == m[c];
      assert Lower(Strip(fns[i])) == Lower(a);
    }
    if HasMatchingHeader(items, fns, c) {
      var j, i, a :| 0 <= j < |items| && items[j].0 == c && 0 <= i < |fns| && a in items[j].1 && Lower(Strip(fns[i])) == Lower(a);
      ResolveFieldComplete(items[j].1, d, Strip(fns[i]), a);
    }
  }

  /** Header `h`, stripped and lower-cased, equals a lower-cased alias an item lists for column `c`. */
  ghost predicate MatchesAlias(items: seq<(string, seq<string>)>, c: string, h: string) {
    exists j, a :: 0 <= j < |items| && items[j].0 == c && a in items[j].1 && Lower(Strip(h)) == Lower(a)
  }

  /**
   * Every key of the mapping is a canonical column of the alias table, and a
   * column is present exactly when some header, stripped and lower-cased,
   * equals one of its aliases lower-cased; its value is one of the headers
   * as given (not stripped) that matches one of those aliases.
   */
  lemma HeaderMappingCharacterized(fns: seq<string>, c: string)
    ensures c in HeaderMapping(fns) <==> HasMatchingHeader(HeaderAliases, fns, c)
    ensures c in HeaderMapping(fns) ==> c in TableColumns
    ensures c in HeaderMapping(fns) ==> HeaderMapping(fns)[c] in fns && MatchesAlias(HeaderAliases, c, HeaderMapping(fns)[c])
  {
    var items := HeaderAliases;
    MappingOfCharacterized(items, fns, c);
    if c in HeaderMapping(fns) {
      var j, a :| 0 <= j < |items| && items[j].0 == c && a in items[j].1 && Lower(Strip(HeaderMapping(fns)[c])) == Lower(a);
      CanonicalNamesAreColumns(j);
    }
  }

  /** The alias table lists exactly the ten insert columns, in the same order. */
  lemma CanonicalNamesAreColumns(j: nat)
    requires j < |HeaderAliases|
    ensures |HeaderAliases| == |TableColumns| && HeaderAliases[j].0 == TableColumns[j]
  {
  }
}
