/** The collection and version helpers of `cereja/utils.py`. */
module Utils {
  import opened Errors
  import opened Text

  // ---------------------------------------------------------------------------
  // invert_dict
  // ---------------------------------------------------------------------------

  /** A Python dict as its items in insertion order; keys are distinct. */
  type Items<K, V> = seq<(K, V)>

  /** What `invert_dict` may be handed: a dict, or any other object. */
  datatype DictArg<K, V> = Dict(items: Items<K, V>) | NotADict

  predicate DistinctKeys<K(==), V>(d: Items<K, V>) {
    forall i, j :: 0 <= i < j < |d| ==> d[i].0 != d[j].0
  }

  /** `d.get(k)`. */
  function Lookup<K(==), V>(d: Items<K, V>, k: K): Option<V>
  {
    if |d| == 0 then None
    else if d[0].0 == k then Some(d[0].1)
    else Lookup(d[1..], k)
  }

  /** `set(d.keys())`. */
  function KeysOf<K, V>(d: Items<K, V>): set<K>
  {
    if |d| == 0 then {} else {d[0].0} + KeysOf(d[1..])
  }

  /** `set(d.values())`. */
  function ValuesOf<K, V>(d: Items<K, V>): set<V>
  {
    if |d| == 0 then {} else {d[0].1} + ValuesOf(d[1..])
  }

  /** `d[k] = v`: an existing key keeps its place and takes the new value,
      a new key is appended. */
  function Assign<K(==), V>(d: Items<K, V>, k: K, v: V): Items<K, V>
  {
    if |d| == 0 then [(k, v)]
    else if d[0].0 == k then [(k, v)] + d[1..]
    else [d[0]] + Assign(d[1..], k, v)
  }

  /** `dict(pairs)`: the pairs assigned one after the other. */
  function FromPairs<K(==), V>(ps: seq<(K, V)>): Items<K, V>
  {
    if |ps| == 0 then [] else Assign(FromPairs(ps[..|ps| - 1]), ps[|ps| - 1].0, ps[|ps| - 1].1)
  }

  /** The value of the last pair in `ps` whose key is `k`. */
  function LastValue<K(==), V>(ps: seq<(K, V)>, k: K): Option<V>
  {
    if |ps| == 0 then None
    else if ps[|ps| - 1].0 == k then Some(ps[|ps| - 1].1)
    else LastValue(ps[..|ps| - 1], k)
  }

  /** `zip(d.values(), d.keys())`. */
  function Swapped<K, V>(d: Items<K, V>): (r: seq<(V, K)>)
    ensures |r| == |d| && forall i :: 0 <= i < |d| ==> r[i] == (d[i].1, d[i].0)
  {
    seq(|d|, i requires 0 <= i < |d| => (d[i].1, d[i].0))
  }

  function InvertDict<K, V(==)>(arg: DictArg<K, V>): (r: Result<Items<V, K>>)
    ensures arg.NotADict? <==> r == Err(TypeError)
  {
    match arg
    case NotADict => Err(TypeError)
    case Dict(items) => Ok(FromPairs(Swapped(items)))
  }

  lemma {:induction false} KeysOfIndex<K, V>(d: Items<K, V>, k: K)
    ensures k in KeysOf(d) <==> exists i :: 0 <= i < |d| && d[i].0 == k
  {
    if |d| > 0 {
      KeysOfIndex(d[1..], k);
      if k in KeysOf(d[1..]) {
        var i :| 0 <= i < |d| - 1 && d[1..][i].0 == k;
        assert d[i + 1].0 == k;
      }
      if exists i :: 0 <= i < |d| && d[i].0 == k {
        var i :| 0 <= i < |d| && d[i].0 == k;
        if i > 0 { assert d[1..][i - 1].0 == k; }
      }
    }
  }

  lemma {:induction false} KeysOfAppend<K, V>(d: Items<K, V>, e: Items<K, V>)
    ensures KeysOf(d + e) == KeysOf(d) + KeysOf(e)
  {
    if |d| > 0 {
      assert (d + e)[1..] == d[1..] + e;
      KeysOfAppend(d[1..], e);
    } else {
      assert d + e == e;
    }
  }

  lemma {:induction false} LookupAbsent<K, V>(d: Items<K, V>, k: K)
    ensures Lookup(d, k).None? <==> k !in KeysOf(d)
  {
    if |d| > 0 {
      LookupAbsent(d[1..], k);
    }
  }

  lemma {:induction false} LookupAppend<K, V>(d: Items<K, V>, e: Items<K, V>, k: K)
    ensures Lookup(d + e, k) == if Lookup(d, k).Some? then Lookup(d, k) else Lookup(e, k)
  {
    if |d| > 0 {
      assert (d + e)[1..] == d[1..] + e;
      LookupAppend(d[1..], e, k);
    } else {
      assert d + e == e;
    }
  }

  lemma {:induction false} AssignFacts<K, V>(d: Items<K, V>, k: K, v: V)
    requires DistinctKeys(d)
    ensures DistinctKeys(Assign(d, k, v))
    ensures KeysOf(Assign(d, k, v)) == KeysOf(d) + {k}
    ensures forall x :: Lookup(Assign(d, k, v), x) == if x == k then Some(v) else Lookup(d, x)
  {
    if |d| > 0 {
      AssignFacts(d[1..], k, v);
      var r := Assign(d, k, v);
      KeysOfIndex(d[1..], d[0].0);
      if d[0].0 == k {
        assert r[1..] == d[1..];
        forall i, j | 0 <= i < j < |r| ensures r[i].0 != r[j].0 {
          assert r[j] == d[j];
          if i > 0 { assert r[i] == d[i]; }
        }
      } else {
        var tail := Assign(d[1..], k, v);
        assert r[1..] == tail;
        KeysOfIndex(tail, d[0].0);
        forall i, j | 0 <= i < j < |r| ensures r[i].0 != r[j].0 {
          if i > 0 {
            assert r[i] == tail[i - 1] && r[j] == tail[j - 1];
          } else {
            assert r[j] == tail[j - 1];
          }
        }
      }
    }
  }

  /** `dict(pairs)` keeps one entry per key, its keys are the keys of the
      pairs, and the entry for `k` holds the value of the last pair with key
      `k`. */
  lemma {:induction false} FromPairsFacts<K, V>(ps: seq<(K, V)>)
    ensures DistinctKeys(FromPairs(ps))
    ensures KeysOf(FromPairs(ps)) == KeysOf(ps)
    ensures forall x :: Lookup(FromPairs(ps), x) == LastValue(ps, x)
  {
    if |ps| > 0 {
      var init := ps[..|ps| - 1];
      var last := ps[|ps| - 1];
      FromPairsFacts(init);
      AssignFacts(FromPairs(init), last.0, last.1);
      assert ps == init + [last];
      KeysOfAppend(init, [last]);
    }
  }

  /** With distinct keys, `dict(pairs)` keeps the pairs as they are. */
  lemma {:induction false} FromPairsDistinct<K, V>(ps: seq<(K, V)>)
    requires DistinctKeys(ps)
    ensures FromPairs(ps) == ps
  {
    if |ps| > 0 {
      var init := ps[..|ps| - 1];
      FromPairsDistinct(init);
      AssignAppends(init, ps[|ps| - 1].0, ps[|ps| - 1].1);
    }
  }

  lemma {:induction false} AssignAppends<K, V>(d: Items<K, V>, k: K, v: V)
    requires forall i :: 0 <= i < |d| ==> d[i].0 != k
    ensures Assign(d, k, v) == d + [(k, v)]
  {
    if |d| > 0 {
      AssignAppends(d[1..], k, v);
      assert d == [d[0]] + d[1..];
    }
  }

  lemma {:induction false} SwappedKeys<K, V>(items: Items<K, V>)
    ensures KeysOf(Swapped(items)) == ValuesOf(items)
  {
    if |items| > 0 {
      assert Swapped(items)[1..] == Swapped(items[1..]);
      SwappedKeys(items[1..]);
    }
  }

  /** The keys of `invert_dict(d)` are exactly the values of `d`, and each
      maps to the LAST key of `d` holding that value, so when values repeat
      the later key wins. */
  lemma InvertDictEntries<K, V>(items: Items<K, V>)
    ensures InvertDict(Dict(items)).Ok?
    ensures DistinctKeys(InvertDict(Dict(items)).value)
    ensures KeysOf(InvertDict(Dict(items)).value) == ValuesOf(items)
    ensures forall v :: Lookup(InvertDict(Dict(items)).value, v) == LastValue(Swapped(items), v)
  {
    FromPairsFacts(Swapped(items));
    SwappedKeys(items);
  }

  /** Whatever key `invert_dict` keeps for `v`, that key maps to `v` in the
      original dict. */
  lemma InvertDictSound<K, V>(items: Items<K, V>, v: V)
    requires DistinctKeys(items)
    requires Lookup(InvertDict(Dict(items)).value, v).Some?
    ensures Lookup(items, Lookup(InvertDict(Dict(items)).value, v).value) == Some(v)
  {
    InvertDictEntries(items);
    LastValueSwapped(items, v);
  }

  lemma {:induction false} LastValueSwapped<K, V>(items: Items<K, V>, v: V)
    requires DistinctKeys(items)
    requires LastValue(Swapped(items), v).Some?
    ensures Lookup(items, LastValue(Swapped(items), v).value) == Some(v)
  {
    var n := |items|;
    var init := items[..n - 1];
    var last := items[n - 1];
    assert Swapped(init) == Swapped(items)[..n - 1];
    assert items == init + [last];
    LookupAppend(init, [last], last.0);
    if last.1 == v {
      KeysOfIndex(init, last.0);
      LookupAbsent(init, last.0);
    } else {
      LastValueSwapped(init, v);
      LookupAppend(init, [last], LastValue(Swapped(items), v).value);
    }
  }

  /** A dict whose values are distinct comes back unchanged, in the same
      order, from inverting it twice. */
  lemma InvertDictTwice<K, V>(items: Items<K, V>)
    requires DistinctKeys(items)
    requires forall i, j :: 0 <= i < j < |items| ==> items[i].1 != items[j].1
    ensures InvertDict(Dict(InvertDict(Dict(items)).value)) == Ok(items)
  {
    FromPairsDistinct(Swapped(items));
    FromPairsDistinct(Swapped(Swapped(items)));
    assert Swapped(Swapped(items)) == items;
  }

  // ---------------------------------------------------------------------------
  // get_version and get_version_pep440_compliant
  // ---------------------------------------------------------------------------

  /** One component of a version: a number, or the release note. */
  datatype Component = Num(n: int) | Word(w: string)

  /** What `get_version` may be handed: a dotted string, or a ready-made
      sequence of components. */
  datatype VersionArg = Text(s: string) | Parts(components: seq<Component>)

  const Notes: set<string> := {"alpha", "beta", "rc", "final"}

  /** The two assertions `get_version` ends with. */
  predicate IsVersion(cs: seq<Component>) {
    |cs| == 5 && cs[3].Word? && cs[3].w in Notes
  }

  /** Every piece but the note (index 3) reads as an integer. */
  predicate NumericPieces(p: seq<string>) {
    forall j :: 0 <= j < |p| && j != 3 ==> ParseInt(p[j]).Some?
  }

  /** What `get_version` returns or raises for a dotted string, stated on its
      pieces: too few pieces to pop index 3 is an `IndexError`, a piece other
      than the note that is not an integer a `ValueError`, and a failed
      assertion an `AssertionError`. */
  function VersionOfPieces(p: seq<string>): (r: Result<seq<Component>>)
    ensures r.Ok? ==> IsVersion(r.value) && |p| == 5 && r.value[3] == Word(p[3])
    ensures r.Ok? ==> forall j :: 0 <= j < 5 && j != 3 ==> ParseInt(p[j]).Some? && r.value[j] == Num(ParseInt(p[j]).value)
    ensures r.Err? ==> r.error in {IndexError, ValueError, AssertionError}
    ensures r.Err? <==> |p| < 4 || !NumericPieces(p) || |p| != 5 || p[3] !in Notes
    ensures |p| < 4 ==> r == Err(IndexError)
    ensures |p| >= 4 && !NumericPieces(p) ==> r == Err(ValueError)
    ensures |p| >= 4 && NumericPieces(p) && !(|p| == 5 && p[3] in Notes) ==> r == Err(AssertionError)
  {
    if |p| < 4 then Err(IndexError)
    else if !NumericPieces(p) then Err(ValueError)
    else
      var cs := seq(|p|, j requires 0 <= j < |p| => if j == 3 then Word(p[3]) else Num(ParseInt(p[j]).value));
      if IsVersion(cs) then Ok(cs) else Err(AssertionError)
  }

  /** What `get_version` returns or raises. */
  function VersionOf(version: VersionArg): (r: Result<seq<Component>>)
    ensures r.Ok? ==> IsVersion(r.value)
    ensures version.Parts? ==> (r.Ok? <==> IsVersion(version.components))
  {
    match version
    case Parts(cs) => if IsVersion(cs) then Ok(cs) else Err(AssertionError)
    case Text(s) => VersionOfPieces(SplitOn(s, '.'))
  }

  /** `get_version`: split on dots, pop the note out, read the rest as
      integers, put the note back at index 3, then check the shape. */
  method GetVersion(version: VersionArg) returns (r: Result<seq<Component>>)
    ensures r == VersionOf(version)
  {
    var parts: seq<Component>;
    match version {
      case Parts(cs) =>
        parts := cs;
      case Text(s) =>
        var pieces := SplitOn(s, '.');
        if |pieces| < 4 {
          return Err(IndexError);
        }
        var note := pieces[3];
        var rest := pieces[..3] + pieces[4..];
        var ints: seq<Component> := [];
        var i := 0;
        while i < |rest|
          invariant 0 <= i <= |rest|
          invariant |ints| == i
          invariant forall j :: 0 <= j < i ==> ParseInt(rest[j]).Some? && ints[j] == Num(ParseInt(rest[j]).value)
        {
          var v := ParseInt(rest[i]);
          if v.None? {
            assert !NumericPieces(pieces) by {
              var j := if i < 3 then i else i + 1;
              assert pieces[j] == rest[i];
            }
            return Err(ValueError);
          }
          ints := ints + [Num(v.value)];
          i := i + 1;
        }
        assert NumericPieces(pieces) by {
          forall j | 0 <= j < |pieces| && j != 3 ensures ParseInt(pieces[j]).Some? {
            var k := if j < 3 then j else j - 1;
            assert rest[k] == pieces[j];
          }
        }
        parts := ints[..3] + [Word(note)] + ints[3..];
        ghost var cs := seq(|pieces|, j requires 0 <= j < |pieces| =>
          if j == 3 then Word(pieces[3]) else Num(ParseInt(pieces[j]).value));
        assert parts == cs by {
          forall j | 0 <= j < |pieces| ensures parts[j] == cs[j] {
            if j > 3 { assert rest[j - 1] == pieces[j]; }
          }
        }
    }
    if |parts| != 5 {
      return Err(AssertionError);
    }
    if !(parts[3].Word? && parts[3].w in Notes) {
      return Err(AssertionError);
    }
    r := Ok(parts);
  }

  /** `str(component)`. */
  function ComponentText(c: Component): string {
    match c
    case Num(n) => IntToString(n)
    case Word(w) => w
  }

  /** The dotted text a version is written as. */
  function VersionText(cs: seq<Component>): string
    requires |cs| == 5
  {
    JoinWith([ComponentText(cs[0]), ComponentText(cs[1]), ComponentText(cs[2]),
              ComponentText(cs[3]), ComponentText(cs[4])], ".")
  }

  lemma {:induction false} SplitOnAfter(x: string, c: char, y: string)
    requires c !in x
    ensures SplitOn(x + [c] + y, c) == [x] + SplitOn(y, c)
  {
    if |x| > 0 {
      assert (x + [c] + y)[1..] == x[1..] + [c] + y;
      assert x[0] != c && [x[0]] + x[1..] == x;
      SplitOnAfter(x[1..], c, y);
    } else {
      assert x + [c] + y == [c] + y;
    }
  }

  lemma {:induction false} SplitOnNone(x: string, c: char)
    requires c !in x
    ensures SplitOn(x, c) == [x]
  {
    if |x| > 0 {
      assert x[0] != c && [x[0]] + x[1..] == x;
      SplitOnNone(x[1..], c);
    }
  }

  /** Dot-free pieces joined with dots split back into those pieces. */
  lemma {:induction false} SplitJoinDotted(parts: seq<string>)
    requires |parts| >= 1 && forall k :: 0 <= k < |parts| ==> '.' !in parts[k]
    ensures SplitOn(JoinWith(parts, "."), '.') == parts
  {
    if |parts| == 1 {
      SplitOnNone(parts[0], '.');
    } else {
      SplitJoinDotted(parts[1..]);
      SplitOnAfter(parts[0], '.', JoinWith(parts[1..], "."));
      assert [parts[0]] + parts[1..] == parts;
    }
  }

  lemma IntTextHasNoDot(n: int)
    ensures '.' !in IntToString(n)
  {
    if n < 0 {
      var d := NatToString(-n);
      assert IntToString(n) == "-" + d;
      assert forall i :: 0 <= i < |d| ==> d[i] != '.';
    }
  }

  /** Writing a well-formed version with dots and reading it back gives the
      same components. */
  lemma VersionTextRoundTrip(cs: seq<Component>)
    requires IsVersion(cs)
    requires forall j :: 0 <= j < 5 && j != 3 ==> cs[j].Num?
    ensures VersionOf(Text(VersionText(cs))) == Ok(cs)
  {
    IntTextHasNoDot(cs[0].n);
    IntTextHasNoDot(cs[1].n);
    IntTextHasNoDot(cs[2].n);
    IntTextHasNoDot(cs[4].n);
    assert '.' !in cs[3].w;
    var t := [ComponentText(cs[0]), ComponentText(cs[1]), ComponentText(cs[2]), ComponentText(cs[3]), ComponentText(cs[4])];
    SplitJoinDotted(t);
    ParseIntToString(cs[0].n);
    ParseIntToString(cs[1].n);
    ParseIntToString(cs[2].n);
    ParseIntToString(cs[4].n);
    PiecesOfVersion(t, cs);
  }

  lemma PiecesOfVersion(t: seq<string>, cs: seq<Component>)
    requires IsVersion(cs) && |t| == 5 && t[3] == cs[3].w
    requires forall j :: 0 <= j < 5 && j != 3 ==> cs[j].Num? && ParseInt(t[j]) == Some(cs[j].n)
    ensures VersionOfPieces(t) == Ok(cs)
  {
    assert NumericPieces(t);
    var r := VersionOfPieces(t);
    assert r.Ok?;
    assert r.value == cs;
  }

  /** The docstring's own example, '1.0.3.a.3', uses the note "a", which is
      not one of the accepted notes, so the call fails its assertion. */
  lemma DocExampleVersionRejected(s: string)
    requires s == "1.0.3.a.3"
    ensures VersionOf(Text(s)) == Err(AssertionError)
  {
    var p := ["1", "0", "3", "a", "3"];
    DocExamplePieces(s);
    assert NumericPieces(p) by {
      assert ParseInt("1").Some? && ParseInt("0").Some? && ParseInt("3").Some?;
    }
    assert "a" !in Notes;
  }

  lemma DocExamplePieces(s: string)
    requires s == "1.0.3.a.3"
    ensures SplitOn(s, '.') == ["1", "0", "3", "a", "3"]
  {
    var p := ["1", "0", "3", "a", "3"];
    SplitJoinDotted(p);
    assert JoinWith(p, ".") == "1.0.3.a.3";
  }

  /** The suffix letters of the release notes. */
  function NoteSuffix(note: string): string {
    if note == "alpha" then "a" else if note == "beta" then "b" else "rc"
  }

  /** The first three components joined with dots. */
  function RootText(cs: seq<Component>): string
    requires |cs| >= 3
  {
    JoinWith([ComponentText(cs[0]), ComponentText(cs[1]), ComponentText(cs[2])], ".")
  }

  /** The PEP 440 text of a checked version, given the result of
      `latest_git()` (`None` when there is no changeset). */
  function Pep440Of(v: seq<Component>, git: Option<string>): (r: string)
    requires IsVersion(v)
    ensures StartsWith(r, RootText(v))
  {
    var root := RootText(v);
    var sub :=
      if v[3] == Word("alpha") && v[4] == Num(0) then
        (if git.Some? && git.value != "" then ".dev" + git.value else "")
      else if v[3] != Word("final") then NoteSuffix(v[3].w) + ComponentText(v[4])
      else "";
    root + sub
  }

  /** `get_version_pep440_compliant`: raises what `get_version` raises. */
  function Pep440Version(version: VersionArg, git: Option<string>): (r: Result<string>)
    ensures r.Err? <==> VersionOf(version).Err?
    ensures r.Err? ==> r.error == VersionOf(version).error
    ensures r.Ok? ==> StartsWith(r.value, RootText(VersionOf(version).value))
  {
    match VersionOf(version)
    case Err(e) => Err(e)
    case Ok(v) => Ok(Pep440Of(v, git))
  }

  /** The release-note suffixes of PEP 440's version scheme: nothing for a
      final release, `b<n>`/`rc<n>` for betas and candidates, `a<n>` for an
      alpha other than 0, and `.dev<changeset>` for alpha 0 when a changeset
      is known. */
  lemma Pep440Suffixes(v: seq<Component>, git: Option<string>)
    requires IsVersion(v)
    ensures var root := RootText(v);
            var r := Pep440Of(v, git);
            && (v[3] == Word("final") ==> r == root)
            && (v[3] == Word("beta") ==> r == root + "b" + ComponentText(v[4]))
            && (v[3] == Word("rc") ==> r == root + "rc" + ComponentText(v[4]))
            && (v[3] == Word("alpha") && v[4] != Num(0) ==> r == root + "a" + ComponentText(v[4]))
            && (v[3] == Word("alpha") && v[4] == Num(0) ==>
                  r == if git.Some? && git.value != "" then root + ".dev" + git.value else root)
  {
    assert "alpha"[0] == 'a' && "beta"[0] == 'b' && "rc"[0] == 'r' && "final"[0] == 'f';
    var note := v[3];
    if note == Word("beta") {
      assert note != Word("alpha") && note != Word("final");
      assert NoteSuffix(note.w) == "b";
    } else if note == Word("rc") {
      assert note != Word("alpha") && note != Word("final") && note.w != "beta";
      assert NoteSuffix(note.w) == "rc";
    } else if note == Word("alpha") {
      assert note != Word("final");
      assert NoteSuffix(note.w) == "a";
    }
  }

  /** For a version string whose numbers are written the way Python writes
      them, the PEP 440 form begins with the input's own text up to its
      third dot. */
  lemma Pep440KeepsInputRoot(s: string, git: Option<string>)
    requires VersionOf(Text(s)).Ok?
    requires forall j :: 0 <= j < 3 ==> IsCanonicalInt(SplitOn(s, '.')[j])
    ensures StartsWith(Pep440Version(Text(s), git).value,
                       JoinWith(SplitOn(s, '.')[..3], "."))
  {
    var p := SplitOn(s, '.');
    var v := VersionOfPieces(p).value;
    assert v == VersionOf(Text(s)).value;
    CanonicalIntRoundTrip(p[0]);
    CanonicalIntRoundTrip(p[1]);
    CanonicalIntRoundTrip(p[2]);
    assert ComponentText(v[0]) == p[0];
    assert ComponentText(v[1]) == p[1];
    assert ComponentText(v[2]) == p[2];
    assert p[..3] == [ComponentText(v[0]), ComponentText(v[1]), ComponentText(v[2])];
  }

  // ---------------------------------------------------------------------------
  // proportional
  // ---------------------------------------------------------------------------

  /** `proportional(value, p)`: `p` percent of `value`. */
  function Proportional(value: real, proOfVal: real): (r: real)
    ensures value == 100.0 ==> r == proOfVal
    ensures proOfVal == 100.0 ==> r == value
  {
    (proOfVal / 100.0) * value
  }

  /** `proportional` is linear in the value. */
  lemma ProportionalLinear(x: real, y: real, a: real, p: real)
    ensures Proportional(a * x + y, p) == a * Proportional(x, p) + Proportional(y, p)
  {
  }

  // ---------------------------------------------------------------------------
  // combine_with_all
  // ---------------------------------------------------------------------------

  /** What `n_a_combinations` may be: an int, or anything else. */
  datatype IntArg = IntVal(n: int) | NotAnInt

  /** The left element of a result pair: an element of `a`, or a tuple of
      them when combinations are asked for. */
  datatype Head<T> = Single(item: T) | Combo(items: seq<T>)

  function Binom(n: nat, k: nat): nat
  {
    if k == 0 then 1 else if n == 0 then 0 else Binom(n - 1, k - 1) + Binom(n - 1, k)
  }

  /** `itertools.combinations(a, k)`: the length-`k` selections of `a`, kept
      in the order of `a`, listed in lexicographic order of positions. */
  function Combinations<T>(a: seq<T>, k: nat): seq<seq<T>>
  {
    if k == 0 then [[]]
    else if |a| == 0 then []
    else
      var with := Combinations(a[1..], k - 1);
      seq(|with|, i requires 0 <= i < |with| => [a[0]] + with[i]) + Combinations(a[1..], k)
  }

  /** `list(itertools.product(xs, ys))`: every pair, the first component
      varying slowest. */
  function Product<X, Y>(xs: seq<X>, ys: seq<Y>): seq<(X, Y)>
  {
    if |xs| == 0 then [] else Row(xs[0], ys) + Product(xs[1..], ys)
  }

  /** `x` paired with every element of `ys`, in order. */
  function Row<X, Y>(x: X, ys: seq<Y>): (r: seq<(X, Y)>)
    ensures |r| == |ys| && forall j :: 0 <= j < |ys| ==> r[j] == (x, ys[j])
  {
    seq(|ys|, j requires 0 <= j < |ys| => (x, ys[j]))
  }

  /** `x` picks elements of `a` in order. */
  predicate IsSubsequence<T(==)>(x: seq<T>, a: seq<T>)
    decreases |a|
  {
    if |x| == 0 then true
    else if |a| == 0 then false
    else (x[0] == a[0] && IsSubsequence(x[1..], a[1..])) || IsSubsequence(x, a[1..])
  }

  /** The number of combinations actually used: `n` above `len(a)` is cut to
      `len(a)`, anything else becomes `abs(n)`. */
  function CombinationSize(n: int, len: nat): nat
  {
    if n > len then len else if n < 0 then -n else n
  }

  /** The left-hand elements paired with `b`: the combinations of the given
      size when it is above 1, the elements of `a` otherwise. */
  function Heads<T>(a: seq<T>, size: nat): (h: seq<Head<T>>)
    ensures size <= 1 ==> |h| == |a| && forall i :: 0 <= i < |a| ==> h[i] == Single(a[i])
    ensures size > 1 ==> |h| == |Combinations(a, size)| &&
                         forall i :: 0 <= i < |h| ==> h[i] == Combo(Combinations(a, size)[i])
  {
    if size > 1 then
      var combos := Combinations(a, size);
      seq(|combos|, i requires 0 <= i < |combos| => Combo(combos[i]))
    else seq(|a|, i requires 0 <= i < |a| => Single(a[i]))
  }

  function CombineWithAll<T, U>(a: seq<T>, b: seq<U>, n: IntArg): (r: Result<seq<(Head<T>, U)>>)
    ensures n.NotAnInt? <==> r == Err(TypeError)
  {
    match n
    case NotAnInt => Err(TypeError)
    case IntVal(k) => Ok(Product(Heads(a, CombinationSize(k, |a|)), b))
  }

  /** There are C(len(a), k) combinations of size `k`. */
  lemma {:induction false} CombinationsCount<T>(a: seq<T>, k: nat)
    ensures |Combinations(a, k)| == Binom(|a|, k)
  {
    if k > 0 && |a| > 0 {
      CombinationsCount(a[1..], k - 1);
      CombinationsCount(a[1..], k);
    }
  }

  /** Every combination has `k` elements and picks them from `a` in order. */
  lemma {:induction false} CombinationsShape<T>(a: seq<T>, k: nat)
    ensures forall c :: c in Combinations(a, k) ==> |c| == k && IsSubsequence(c, a)
  {
    if k > 0 && |a| > 0 {
      var with := Combinations(a[1..], k - 1);
      CombinationsShape(a[1..], k - 1);
      CombinationsShape(a[1..], k);
      forall c | c in Combinations(a, k) ensures |c| == k && IsSubsequence(c, a) {
        if c in Combinations(a[1..], k) {
          SubsequenceOfTail(c, a);
        } else {
          var i :| 0 <= i < |with| && c == [a[0]] + with[i];
          assert c[1..] == with[i];
        }
      }
    }
  }

  /** Positions that strictly increase. */
  predicate Increasing(ix: seq<nat>) {
    forall i, j :: 0 <= i < j < |ix| ==> ix[i] < ix[j]
  }

  /** Every position lies in `lo .. n - 1`. */
  predicate Within(ix: seq<nat>, lo: nat, n: nat) {
    forall j :: 0 <= j < |ix| ==> lo <= ix[j] < n
  }

  /** The position tuples `itertools.combinations` walks through: the
      increasing length-`k` choices among positions `lo .. n - 1`, those
      holding `lo` first. */
  function IndexCombos(lo: nat, n: nat, k: nat): (r: seq<seq<nat>>)
    ensures forall i :: 0 <= i < |r| ==> |r[i]| == k && Increasing(r[i]) && Within(r[i], lo, n)
    decreases n - lo
  {
    if k == 0 then [[]]
    else if lo >= n then []
    else
      var with := IndexCombos(lo + 1, n, k - 1);
      seq(|with|, i requires 0 <= i < |with| => [lo] + with[i]) + IndexCombos(lo + 1, n, k)
  }

  /** The elements of `a` at the given positions. */
  function Select<T>(a: seq<T>, ix: seq<nat>): seq<T>
    requires Within(ix, 0, |a|)
  {
    seq(|ix|, j requires 0 <= j < |ix| => a[ix[j]])
  }

  /** The combinations of `a[lo..]` are the elements of `a` at the position
      tuples, one for one and in the same order. */
  lemma {:induction false} CombinationsSelect<T>(a: seq<T>, lo: nat, k: nat)
    requires lo <= |a|
    ensures var ics := IndexCombos(lo, |a|, k);
            var cs := Combinations(a[lo..], k);
            |cs| == |ics| && forall i :: 0 <= i < |ics| ==> cs[i] == Select(a, ics[i])
    decreases |a| - lo
  {
    if k > 0 && lo < |a| {
      var s := a[lo..];
      assert s[0] == a[lo] && s[1..] == a[lo + 1..];
      CombinationsSelect(a, lo + 1, k - 1);
      CombinationsSelect(a, lo + 1, k);
      var with := IndexCombos(lo + 1, |a|, k - 1);
      var cw := Combinations(a[lo + 1..], k - 1);
      var head := seq(|with|, i requires 0 <= i < |with| => [lo] + with[i]);
      var chead := seq(|cw|, i requires 0 <= i < |cw| => [s[0]] + cw[i]);
      assert IndexCombos(lo, |a|, k) == head + IndexCombos(lo + 1, |a|, k);
      assert Combinations(s, k) == chead + Combinations(a[lo + 1..], k);
      var ics := head + IndexCombos(lo + 1, |a|, k);
      var cs := chead + Combinations(a[lo + 1..], k);
      forall i | 0 <= i < |ics| ensures cs[i] == Select(a, ics[i]) {
        if i < |head| {
          SelectCons(a, lo, with[i]);
        } else {
          assert ics[i] == IndexCombos(lo + 1, |a|, k)[i - |head|];
        }
      }
    }
  }

  /** Reading one more position in front adds its element in front. */
  lemma SelectCons<T>(a: seq<T>, p: nat, x: seq<nat>)
    requires p < |a| && Within(x, 0, |a|)
    ensures Within([p] + x, 0, |a|) && Select(a, [p] + x) == [a[p]] + Select(a, x)
  {
  }

  /** `combinations(a, k)` takes the elements of `a` at each position tuple
      of `IndexCombos(0, len(a), k)`, in that order. */
  lemma CombinationsByPosition<T>(a: seq<T>, k: nat)
    ensures var ics := IndexCombos(0, |a|, k);
            |Combinations(a, k)| == |ics| &&
            forall i :: 0 <= i < |ics| ==> Combinations(a, k)[i] == Select(a, ics[i])
  {
    CombinationsSelect(a, 0, k);
    assert a[0..] == a;
  }

  /** `x` comes before `y` in lexicographic order. */
  predicate LexLess(x: seq<nat>, y: seq<nat>)
    decreases |x|
  {
    |x| > 0 && |y| > 0 && (x[0] < y[0] || (x[0] == y[0] && LexLess(x[1..], y[1..])))
  }

  lemma {:induction false} LexLessIrreflexive(x: seq<nat>)
    ensures !LexLess(x, x)
    decreases |x|
  {
    if |x| > 0 {
      LexLessIrreflexive(x[1..]);
    }
  }

  /** Each tuple comes strictly before every later one. */
  predicate LexSorted(r: seq<seq<nat>>)
  {
    forall i, j :: 0 <= i < j < |r| ==> LexLess(r[i], r[j])
  }

  /** The position tuples come in strictly increasing lexicographic order,
      so none occurs twice. */
  lemma {:induction false} IndexCombosSorted(lo: nat, n: nat, k: nat)
    ensures LexSorted(IndexCombos(lo, n, k))
    ensures var r := IndexCombos(lo, n, k);
            forall i, j :: 0 <= i < j < |r| ==> r[i] != r[j]
    decreases n - lo
  {
    var r := IndexCombos(lo, n, k);
    if k > 0 && lo < n {
      var with := IndexCombos(lo + 1, n, k - 1);
      var rest := IndexCombos(lo + 1, n, k);
      IndexCombosSorted(lo + 1, n, k - 1);
      IndexCombosSorted(lo + 1, n, k);
      var head := seq(|with|, i requires 0 <= i < |with| => [lo] + with[i]);
      assert r == head + rest;
      forall i, j | 0 <= i < j < |r| ensures LexLess(r[i], r[j]) {
        if j < |head| {
          assert LexLess(with[i], with[j]);
          assert r[i] == [lo] + with[i] && r[j] == [lo] + with[j];
          LexLessCons(lo, with[i], with[j]);
        } else if i < |head| {
          assert r[i] == [lo] + with[i] && r[j] == rest[j - |head|];
          assert r[j][0] >= lo + 1;
        } else {
          assert LexLess(rest[i - |head|], rest[j - |head|]);
          assert r[i] == rest[i - |head|] && r[j] == rest[j - |head|];
        }
      }
    }
    forall i, j | 0 <= i < j < |r| ensures r[i] != r[j] {
      LexLessIrreflexive(r[i]);
    }
  }

  /** A common first position leaves the order to the rest. */
  lemma LexLessCons(a: nat, x: seq<nat>, y: seq<nat>)
    requires LexLess(x, y)
    ensures LexLess([a] + x, [a] + y)
  {
    assert ([a] + x)[1..] == x && ([a] + y)[1..] == y;
  }

  /** Every increasing choice of `k` positions among `lo .. n - 1` is one of
      the tuples. */
  lemma {:induction false} IndexCombosComplete(lo: nat, n: nat, k: nat, ix: seq<nat>)
    requires |ix| == k && Increasing(ix) && Within(ix, lo, n)
    ensures ix in IndexCombos(lo, n, k)
    decreases n - lo
  {
    if k > 0 {
      assert lo <= ix[0] < n;
      if ix[0] == lo {
        IncreasingTail(ix, n);
        IndexCombosComplete(lo + 1, n, k - 1, ix[1..]);
        InFirstPart(lo, n, k, ix);
      } else {
        WithinAbove(ix, lo, n);
        IndexCombosComplete(lo + 1, n, k, ix);
        InSecondPart(lo, n, k, ix);
      }
    }
  }

  /** A tuple starting at `lo` comes from the tuples of the rest. */
  lemma InFirstPart(lo: nat, n: nat, k: nat, ix: seq<nat>)
    requires 0 < k && lo < n && |ix| > 0 && ix[0] == lo && ix[1..] in IndexCombos(lo + 1, n, k - 1)
    ensures ix in IndexCombos(lo, n, k)
  {
    var with := IndexCombos(lo + 1, n, k - 1);
    var head := seq(|with|, i requires 0 <= i < |with| => [lo] + with[i]);
    assert IndexCombos(lo, n, k) == head + IndexCombos(lo + 1, n, k);
    var i :| 0 <= i < |with| && with[i] == ix[1..];
    assert head[i] == ix;
  }

  /** The tuples that skip `lo` follow. */
  lemma InSecondPart(lo: nat, n: nat, k: nat, ix: seq<nat>)
    requires 0 < k && lo < n && ix in IndexCombos(lo + 1, n, k)
    ensures ix in IndexCombos(lo, n, k)
  {
    var with := IndexCombos(lo + 1, n, k - 1);
    var head := seq(|with|, i requires 0 <= i < |with| => [lo] + with[i]);
    assert IndexCombos(lo, n, k) == head + IndexCombos(lo + 1, n, k);
  }

  /** Increasing positions that do not start at `lo` all lie above it. */
  lemma WithinAbove(ix: seq<nat>, lo: nat, n: nat)
    requires |ix| > 0 && Increasing(ix) && Within(ix, lo, n) && ix[0] != lo
    ensures Within(ix, lo + 1, n)
  {
    forall j | 0 <= j < |ix| ensures lo + 1 <= ix[j] < n {
      if j > 0 {
        assert ix[0] < ix[j];
      }
    }
  }

  /** After the first position, the rest increase from just above it. */
  lemma IncreasingTail(ix: seq<nat>, n: nat)
    requires |ix| > 0 && Increasing(ix) && Within(ix, 0, n)
    ensures Increasing(ix[1..]) && Within(ix[1..], ix[0] + 1, n)
  {
    forall j | 0 <= j < |ix| - 1 ensures ix[0] + 1 <= ix[1..][j] < n {
      assert ix[1..][j] == ix[j + 1];
    }
  }

  lemma SubsequenceOfTail<T>(c: seq<T>, a: seq<T>)
    requires |a| > 0 && IsSubsequence(c, a[1..])
    ensures IsSubsequence(c, a)
  {
  }

  lemma {:induction false} BinomAbove(n: nat, k: nat)
    requires k > n
    ensures Binom(n, k) == 0
  {
    if n > 0 {
      BinomAbove(n - 1, k - 1);
      BinomAbove(n - 1, k);
    }
  }

  /** The pair `(xs[i], ys[j])` sits at position `i * len(ys) + j`. */
  lemma {:induction false} ProductAt<X, Y>(xs: seq<X>, ys: seq<Y>, i: nat, j: nat)
    requires i < |xs| && j < |ys|
    ensures |Product(xs, ys)| == |xs| * |ys|
    ensures i * |ys| + j < |Product(xs, ys)|
    ensures Product(xs, ys)[i * |ys| + j] == (xs[i], ys[j])
  {
    ProductLength(xs, ys);
    MulBound(i, |xs|, |ys|, j);
    if i == 0 {
      ProductAtHead(xs, ys, j);
    } else {
      ProductAt(xs[1..], ys, i - 1, j);
      var q := (i - 1) * |ys| + j;
      MulStep(i, |ys|, j);
      ProductAtTail(xs, ys, q);
      assert xs[1..][i - 1] == xs[i];
    }
  }

  /** The first row of the product comes first. */
  lemma ProductAtHead<X, Y>(xs: seq<X>, ys: seq<Y>, j: nat)
    requires 0 < |xs| && j < |ys|
    ensures j < |Product(xs, ys)| && Product(xs, ys)[j] == (xs[0], ys[j])
  {
    assert Product(xs, ys) == Row(xs[0], ys) + Product(xs[1..], ys);
  }

  /** After the first row come the rows of the rest of `xs`. */
  lemma ProductAtTail<X, Y>(xs: seq<X>, ys: seq<Y>, q: nat)
    requires 0 < |xs| && q < |Product(xs[1..], ys)|
    ensures |ys| + q < |Product(xs, ys)| && Product(xs, ys)[|ys| + q] == Product(xs[1..], ys)[q]
  {
    assert Product(xs, ys) == Row(xs[0], ys) + Product(xs[1..], ys);
  }

  lemma {:induction false} MulBound(i: nat, n: nat, m: nat, j: nat)
    requires i < n && j < m
    ensures i * m + j < n * m
    decreases n - i
  {
    if i + 1 < n {
      MulBound(i + 1, n, m, j);
    }
    assert (i + 1) * m == i * m + m;
  }

  lemma MulStep(i: nat, m: nat, j: nat)
    requires i > 0
    ensures i * m + j == m + ((i - 1) * m + j)
  {
  }

  lemma {:induction false} ProductLength<X, Y>(xs: seq<X>, ys: seq<Y>)
    ensures |Product(xs, ys)| == |xs| * |ys|
  {
    if |xs| > 0 {
      ProductLength(xs[1..], ys);
      assert |xs| * |ys| == (|xs| - 1) * |ys| + |ys|;
    }
  }

  /** The result has C(len(a), n) * len(b) pairs when combinations are used
      and len(a) * len(b) otherwise. */
  lemma CombineWithAllLength<T, U>(a: seq<T>, b: seq<U>, n: int)
    ensures var size := CombinationSize(n, |a|);
            |CombineWithAll(a, b, IntVal(n)).value| ==
              if size > 1 then Binom(|a|, size) * |b| else |a| * |b|
  {
    var size := CombinationSize(n, |a|);
    CombinationsCount(a, size);
    ProductLength(Heads(a, size), b);
  }

  /** The pairs come combination by combination (element by element when no
      combinations are used), each one with every element of `b` in turn. */
  lemma CombineWithAllOrder<T, U>(a: seq<T>, b: seq<U>, n: int, i: nat, j: nat)
    requires j < |b|
    requires i < |Heads(a, CombinationSize(n, |a|))|
    ensures var size := CombinationSize(n, |a|);
            var r := CombineWithAll(a, b, IntVal(n)).value;
            i * |b| + j < |r| &&
            r[i * |b| + j] == (if size > 1 then Combo(Combinations(a, size)[i]) else Single(a[i]), b[j])
  {
    var size := CombinationSize(n, |a|);
    var h := Heads(a, size);
    ProductAt(h, b, i, j);
    assert CombineWithAll(a, b, IntVal(n)).value == Product(h, b);
  }

  /** The bound is applied before `abs`, so a negative count whose size
      exceeds `len(a)` asks for more elements than `a` has and yields no
      pairs at all. */
  lemma NegativeCountBeyondLength<T, U>(a: seq<T>, b: seq<U>, n: int)
    requires n < -|a|
    ensures CombineWithAll(a, b, IntVal(n)) == Ok([])
  {
    var size := CombinationSize(n, |a|);
    CombinationsCount(a, size);
    BinomAbove(|a|, size);
    ProductLength(Heads(a, size), b);
  }
}
