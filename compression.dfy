/** Lempel-Ziv 1978 pattern counting of lattice configurations, the integer
    half of the computable information density. */
module Compression {
  import opened Lattice

  // ---------------------------------------------------------------------------
  // Clamping Manna occupancies to one decimal digit
  // ---------------------------------------------------------------------------

  /** Each occupancy above 9 replaced by 9. */
  function Clamp(a: seq<int>): (r: seq<int>)
    ensures |r| == |a|
  {
    seq(|a|, i requires 0 <= i < |a| => if a[i] > 9 then 9 else a[i])
  }

  /** Clamping caps every entry at 9, leaves every entry of at most 9 alone,
      and changes nothing a second time. */
  lemma ClampSpec(a: seq<int>)
    ensures forall i :: 0 <= i < |a| ==> Clamp(a)[i] <= 9
    ensures forall i :: 0 <= i < |a| && a[i] <= 9 ==> Clamp(a)[i] == a[i]
    ensures forall i :: 0 <= i < |a| && a[i] > 9 ==> Clamp(a)[i] == 9
    ensures Clamp(Clamp(a)) == Clamp(a)
    ensures Clamp(a) == a <==> forall i :: 0 <= i < |a| ==> a[i] <= 9
  {
    if Clamp(a) == a {
      forall i | 0 <= i < |a| ensures a[i] <= 9 {
        assert Clamp(a)[i] == a[i];
      }
    }
  }

  /** `flatten_manna_configuration`: clamps the caller's own array in place and
      returns that same array, not a copy. */
  method FlattenMannaConfiguration(configuration: array<int>) returns (flattened: array<int>)
    modifies configuration
    ensures flattened == configuration
    ensures configuration[..] == Clamp(old(configuration[..]))
  {
    flattened := configuration;
    var site := 0;
    while site < configuration.Length
      invariant 0 <= site <= configuration.Length
      invariant forall i :: 0 <= i < site ==> configuration[i] == Clamp(old(configuration[..]))[i]
      invariant forall i :: site <= i < configuration.Length ==> configuration[i] == old(configuration[i])
    {
      if configuration[site] > 9 {
        flattened[site] := 9;
      }
      site := site + 1;
    }
  }

  // ---------------------------------------------------------------------------
  // Decimal rendering, `str(int(x))`
  // ---------------------------------------------------------------------------

  function DigitChar(d: nat): (c: char)
    requires d < 10
    ensures '0' <= c <= '9' && (c as int) - ('0' as int) == d
  {
    (('0' as int) + d) as char
  }

  /** The decimal numeral of n, without leading zeros. */
  function NatString(n: nat): (r: string)
    ensures |r| >= 1 && '0' <= r[0] <= '9'
    decreases n
  {
    if n < 10 then [DigitChar(n)] else NatString(n / 10) + [DigitChar(n % 10)]
  }

  /** `str` of an integer: a minus sign before the numeral of a negative one. */
  function IntString(n: int): (r: string)
    ensures |r| >= 1
    ensures r[0] == '-' <==> n < 0
  {
    if n < 0 then "-" + NatString(-n) else NatString(n)
  }

  /** `''.join(str(int(x)) for x in a)`. */
  function Render(a: seq<int>): (r: string)
    ensures |r| >= |a|
  {
    if a == [] then "" else Render(a[..|a| - 1]) + IntString(a[|a| - 1])
  }

  /** A lattice of single digits renders one character per site, the site's
      digit, so the rendering determines the lattice. */
  lemma {:induction false} RenderDigits(a: seq<int>)
    requires forall i :: 0 <= i < |a| ==> 0 <= a[i] <= 9
    ensures |Render(a)| == |a|
    ensures forall i :: 0 <= i < |a| ==> Render(a)[i] == DigitChar(a[i])
  {
    if a != [] {
      RenderDigits(a[..|a| - 1]);
    }
  }

  lemma RenderInjective(a: seq<int>, b: seq<int>)
    requires forall i :: 0 <= i < |a| ==> 0 <= a[i] <= 9
    requires forall i :: 0 <= i < |b| ==> 0 <= b[i] <= 9
    requires Render(a) == Render(b)
    ensures a == b
  {
    RenderDigits(a);
    RenderDigits(b);
    forall i | 0 <= i < |a| ensures a[i] == b[i] {
      assert DigitChar(a[i]) == DigitChar(b[i]);
    }
  }

  // ---------------------------------------------------------------------------
  // The LZ78 parse
  // ---------------------------------------------------------------------------

  function Concat(P: seq<string>): string
  {
    if P == [] then "" else Concat(P[..|P| - 1]) + P[|P| - 1]
  }

  /** P is the LZ78 parse of s: the patterns spell s, none is empty, only the
      last may repeat an earlier one (the leftover of an unfinished pattern),
      and every proper prefix of a pattern is an earlier pattern (the current
      pattern grows one character at a time until it is new). */
  predicate IsLz78Parse(s: string, P: seq<string>)
  {
    && Concat(P) == s
    && (forall i :: 0 <= i < |P| ==> P[i] != [])
    && (forall i, j :: 0 <= j < i < |P| && P[i] == P[j] ==> i == |P| - 1)
    && (forall i, k :: 0 <= i < |P| && 0 < k < |P[i]| ==> P[i][..k] in P[..i])
  }

  /** The patterns recorded so far: none is empty, no two are equal, and
      every proper prefix of each was recorded before it. */
  predicate Dictionary(P: seq<string>)
  {
    && (forall i :: 0 <= i < |P| ==> P[i] != [])
    && (forall i, j :: 0 <= j < i < |P| ==> P[i] != P[j])
    && (forall i, k :: 0 <= i < |P| && 0 < k < |P[i]| ==> P[i][..k] in P[..i])
  }

  /** Every non-empty prefix of x, x included, has been recorded. */
  predicate PrefixesSeen(x: string, P: seq<string>)
  {
    forall k :: 0 < k <= |x| ==> x[..k] in P
  }

  /** `lz_78` on a string: extend the current pattern by the next character;
      once it is not among the seen patterns, record it and start afresh; a
      non-empty leftover is recorded at the end. */
  method Lz78Parse(s: string) returns (patterns: seq<string>)
    ensures IsLz78Parse(s, patterns)
  {
    patterns := [];
    var current: string := "";
    var site := 0;
    while site < |s|
      invariant 0 <= site <= |s|
      invariant Concat(patterns) + current == s[..site]
      invariant Dictionary(patterns) && PrefixesSeen(current, patterns)
    {
      var grown := current + [s[site]];
      ParseStep(patterns, current, s[..site], s[site]);
      assert s[..site + 1] == s[..site] + [s[site]];
      if grown !in patterns {
        patterns := patterns + [grown];
        current := "";
      } else {
        current := grown;
      }
      site := site + 1;
    }
    assert s[..|s|] == s;
    Finish(patterns, current);
    if current != "" {
      patterns := patterns + [current];
    }
  }

  /** One character of the parse loop keeps the loop's invariant: the
      dictionary, the recorded prefixes of the current pattern and the text
      read so far, whether the grown pattern is recorded or kept. */
  lemma ParseStep(P: seq<string>, current: string, read: string, c: char)
    requires Dictionary(P) && PrefixesSeen(current, P) && Concat(P) + current == read
    ensures var x := current + [c];
      && (x !in P ==> Dictionary(P + [x]) && PrefixesSeen([], P + [x])
                      && Concat(P + [x]) + [] == read + [c])
      && (x in P ==> PrefixesSeen(x, P) && Concat(P) + x == read + [c])
  {
    var x := current + [c];
    Extend(P, current, c);
    if x !in P {
      Commit(P, x);
    }
  }

  /** Growing the current pattern by one character: its proper prefixes are
      all recorded, and so is the grown pattern when it is not new. */
  lemma Extend(P: seq<string>, current: string, c: char)
    requires PrefixesSeen(current, P)
    ensures var x := current + [c];
      && (forall k :: 0 < k < |x| ==> x[..k] in P)
      && (x in P ==> PrefixesSeen(x, P))
  {
    var x := current + [c];
    forall k | 0 < k < |x| ensures x[..k] in P {
      assert x[..k] == current[..k];
    }
    assert x[..|x|] == x;
  }

  /** Recording a new pattern whose proper prefixes are recorded keeps the
      dictionary. */
  lemma Commit(P: seq<string>, x: string)
    requires Dictionary(P) && x != [] && x !in P
    requires forall k :: 0 < k < |x| ==> x[..k] in P
    ensures Dictionary(P + [x]) && Concat(P + [x]) == Concat(P) + x
  {
    Record(P, x);
    var Q := P + [x];
    forall i, k | 0 <= i < |Q| && 0 < k < |Q[i]| ensures Q[i][..k] in Q[..i] {
      if i < |P| {
        assert Q[i] == P[i];
      }
    }
  }

  /** After the last character the dictionary, with a non-empty leftover
      recorded once more, is the parse of what was read. */
  lemma Finish(P: seq<string>, current: string)
    requires Dictionary(P) && PrefixesSeen(current, P)
    ensures IsLz78Parse(Concat(P) + current, if current == [] then P else P + [current])
  {
    if current == [] {
      assert Concat(P) + current == Concat(P);
    } else {
      Record(P, current);
      var Q := P + [current];
      forall i, k | 0 <= i < |Q| && 0 < k < |Q[i]| ensures Q[i][..k] in Q[..i] {
        if i < |P| {
          assert Q[i] == P[i];
        }
      }
    }
  }

  /** Recording a pattern appends it to the concatenation and keeps the
      earlier patterns' prefixes. */
  lemma Record(P: seq<string>, x: string)
    ensures Concat(P + [x]) == Concat(P) + x
    ensures forall i :: 0 <= i <= |P| ==> (P + [x])[..i] == P[..i]
  {
    assert (P + [x])[..|P|] == P;
  }

  /** Every pattern after the first n adds at least one character. */
  lemma {:induction false} ConcatGrows(P: seq<string>, n: nat)
    requires n <= |P|
    requires forall i :: 0 <= i < |P| ==> P[i] != []
    ensures |Concat(P[..n])| + (|P| - n) <= |Concat(P)|
    decreases |P| - n
  {
    if n < |P| {
      var m := |P| - 1;
      assert P[..m + 1] == P;
      ConcatGrows(P[..m], n);
      assert P[..m][..n] == P[..n];
    } else {
      assert P[..n] == P;
    }
  }

  /** The patterns before position i spell a prefix of the whole, and the
      pattern at i follows it. */
  lemma {:induction false} ConcatPrefix(P: seq<string>, i: nat)
    requires i < |P|
    ensures var w := Concat(P[..i]);
      |w| + |P[i]| <= |Concat(P)| && Concat(P)[..|w| + |P[i]|] == w + P[i]
    decreases |P| - i
  {
    var n := |P| - 1;
    assert P[..n + 1] == P;
    if i < n {
      ConcatPrefix(P[..n], i);
      assert P[..n][..i] == P[..i];
    } else {
      assert P[..i + 1] == P;
    }
  }

  /** A pattern that repeats an earlier one is the last, so the string ends
      with it. */
  lemma RepeatEndsParse(s: string, P: seq<string>, h: nat)
    requires IsLz78Parse(s, P) && h < |P|
    ensures P[h] in P[..h] ==> |s| == |Concat(P[..h])| + |P[h]|
  {
    if P[h] in P[..h] {
      var j :| 0 <= j < h && P[..h][j] == P[h];
      assert P[j] == P[h];
      assert P == P[..h] + [P[h]];
      Record(P[..h], P[h]);
    }
  }

  /** Pattern h of a parse sits in s right after the patterns before it. */
  lemma PatternInPlace(s: string, P: seq<string>, h: nat)
    requires IsLz78Parse(s, P) && h < |P|
    ensures var w := Concat(P[..h]);
      |w| + |P[h]| <= |s| && P[h] == s[|w|..|w| + |P[h]|]
  {
    ConcatPrefix(P, h);
  }

  /** Of two slices of s starting at the same place, the shorter is a prefix
      of the longer. */
  lemma SlicePrefix(s: string, a: nat, m: nat, n: nat)
    requires a + m <= |s| && a + n <= |s|
    ensures m <= n ==> s[a..a + m] == s[a..a + n][..m]
    ensures n <= m ==> s[a..a + n] == s[a..a + m][..n]
  {
  }

  /** Two parses of the same string agree on their first i patterns: at the
      first place they could differ, a shorter pattern would be a proper
      prefix of the other, hence an earlier pattern, hence the last one, and
      then the string would end before the longer pattern does. */
  lemma {:induction false} ParsesAgree(s: string, P: seq<string>, Q: seq<string>, i: nat)
    requires IsLz78Parse(s, P) && IsLz78Parse(s, Q)
    requires i <= |P| && i <= |Q|
    ensures P[..i] == Q[..i]
  {
    if i > 0 {
      var h := i - 1;
      ParsesAgree(s, P, Q, h);
      var w := Concat(P[..h]);
      var p, q := P[h], Q[h];
      PatternInPlace(s, P, h);
      PatternInPlace(s, Q, h);
      RepeatEndsParse(s, P, h);
      RepeatEndsParse(s, Q, h);
      SlicePrefix(s, |w|, |p|, |q|);
      assert |p| <= |q| ==> q[..|p|] == p;
      assert |q| <= |p| ==> p[..|q|] == q;
      assert |p| == |q|;
      assert P[..i] == P[..h] + [p] && Q[..i] == Q[..h] + [q];
    }
  }

  /** The parse is unique, so `IsLz78Parse` pins down the result of `lz_78`. */
  lemma Lz78ParseUnique(s: string, P: seq<string>, Q: seq<string>)
    requires IsLz78Parse(s, P) && IsLz78Parse(s, Q)
    ensures P == Q
  {
    var n := if |P| <= |Q| then |P| else |Q|;
    ParsesAgree(s, P, Q, n);
    assert P[..|P|] == P && Q[..|Q|] == Q;
    ConcatGrows(P, n);
    ConcatGrows(Q, n);
  }

  /** There are never more patterns than characters. */
  lemma PatternCountBound(s: string, P: seq<string>)
    requires IsLz78Parse(s, P)
    ensures |P| <= |s|
  {
    ConcatGrows(P, 0);
  }

  /** Each pattern is a single character or extends an earlier pattern by one
      character. */
  lemma PatternExtendsEarlier(s: string, P: seq<string>, i: nat)
    requires IsLz78Parse(s, P) && i < |P|
    ensures |P[i]| == 1 || P[i][..|P[i]| - 1] in P[..i]
  {
    assert P[i] != [];
  }

  /** The empty string has the empty parse. */
  lemma ParseOfEmpty(P: seq<string>)
    ensures IsLz78Parse("", P) <==> P == []
  {
    if IsLz78Parse("", P) {
      ConcatGrows(P, 0);
    }
  }

  /** "1011" parses into "1", "0", "11". */
  lemma ParseOf1011(P: seq<string>)
    ensures IsLz78Parse("1011", P) <==> P == ["1", "0", "11"]
  {
    var E := ["1", "0", "11"];
    assert E[..0] == [] && E[..1] == ["1"] && E[..2] == ["1", "0"] && E[..3] == E;
    assert Concat(E) == "1011" by {
      assert Concat(E[..2]) == "10" by {
        assert Concat(E[..1]) == "1";
      }
    }
    assert E[2][..1] == "1";
    assert IsLz78Parse("1011", E);
    if IsLz78Parse("1011", P) {
      Lz78ParseUnique("1011", P, E);
    }
  }

  /** The LZ78 parse of s has n patterns. */
  ghost predicate Lz78Count(s: string, n: nat)
  {
    exists P :: IsLz78Parse(s, P) && |P| == n
  }

  /** The pattern count of a string is well defined and at most its length. */
  lemma Lz78CountSpec(s: string, n: nat, m: nat)
    requires Lz78Count(s, n)
    ensures n <= |s|
    ensures Lz78Count(s, m) ==> n == m
  {
    var P :| IsLz78Parse(s, P) && |P| == n;
    PatternCountBound(s, P);
    if Lz78Count(s, m) {
      var Q :| IsLz78Parse(s, Q) && |Q| == m;
      Lz78ParseUnique(s, P, Q);
    }
  }

  // ---------------------------------------------------------------------------
  // Model dispatch
  // ---------------------------------------------------------------------------

  /** What `lz_78` and `cid` are handed: text, or a lattice array. */
  datatype Configuration = Text(text: string) | Cells(cells: array<int>)

  function Footprint(c: Configuration): set<array<int>>
  {
    if c.Cells? then {c.cells} else {}
  }

  /** Clamping a non-negative lattice leaves one digit per site, so its
      rendering has one character per site. */
  lemma ClampedRenderLength(a: seq<int>)
    requires NonNegative(a)
    ensures |Render(Clamp(a))| == |a|
  {
    ClampSpec(a);
    RenderDigits(Clamp(a));
  }

  /** `lz_78(configuration, model)`. For "clg" only text is accepted. For
      "manna" the lattice is clamped in place, through the alias, and then
      rendered; text reaches the clamp too, where a non-empty one fails on
      comparing a character with 9 and the empty one parses to nothing. Any
      other model leaves the string to parse undefined. */
  method Lz78(configuration: Configuration, model: string) returns (r: Result<seq<string>>)
    modifies Footprint(configuration)
    ensures model == "clg" && configuration.Text? ==>
      r.Ok? && IsLz78Parse(configuration.text, r.value)
    ensures model == "clg" && configuration.Cells? ==> r == Err(ConfigurationNotString)
    ensures model == "manna" && configuration.Cells? ==>
      && configuration.cells[..] == Clamp(old(configuration.cells[..]))
      && r.Ok? && IsLz78Parse(Render(configuration.cells[..]), r.value)
    ensures model == "manna" && configuration.Text? ==>
      r == if configuration.text == "" then Ok([]) else Err(NonNumericConfiguration)
    ensures model != "clg" && model != "manna" ==> r == Err(UnknownModel)
    ensures model != "manna" || configuration.Text? ==> unchanged(Footprint(configuration))
  {
    if model == "clg" {
      if configuration.Text? {
        var P := Lz78Parse(configuration.text);
        return Ok(P);
      }
      return Err(ConfigurationNotString);
    } else if model == "manna" {
      if configuration.Text? {
        if configuration.text != "" {
          return Err(NonNumericConfiguration);
        }
        var P := Lz78Parse("");
        ParseOfEmpty(P);
        return Ok(P);
      }
      var flattened := FlattenMannaConfiguration(configuration.cells);
      var P := Lz78Parse(Render(flattened[..]));
      return Ok(P);
    }
    return Err(UnknownModel);
  }

  /** `lz_78_number_of_patterns`: the length of the `lz_78` result, failing
      where `lz_78` returns nothing. */
  method NumberOfPatterns(configuration: Configuration, model: string) returns (r: Result<nat>)
    modifies Footprint(configuration)
    ensures model == "clg" && configuration.Text? ==>
      r.Ok? && Lz78Count(configuration.text, r.value) && r.value <= |configuration.text|
    ensures model == "clg" && configuration.Cells? ==> r == Err(ConfigurationNotString)
    ensures model == "manna" && configuration.Cells? ==>
      && configuration.cells[..] == Clamp(old(configuration.cells[..]))
      && r.Ok? && Lz78Count(Render(configuration.cells[..]), r.value)
      && (NonNegative(old(configuration.cells[..])) ==> r.value <= configuration.cells.Length)
    ensures model == "manna" && configuration.Text? ==>
      r == if configuration.text == "" then Ok(0) else Err(NonNumericConfiguration)
    ensures model != "clg" && model != "manna" ==> r == Err(UnknownModel)
    ensures model != "manna" || configuration.Text? ==> unchanged(Footprint(configuration))
  {
    ghost var before := if configuration.Cells? then configuration.cells[..] else [];
    var parse := Lz78(configuration, model);
    if parse.Err? {
      return Err(parse.error);
    }
    var P := parse.value;
    r := Ok(|P|);
    if model == "clg" && configuration.Text? {
      PatternCountBound(configuration.text, P);
    }
    if model == "manna" && configuration.Cells? {
      PatternCountBound(Render(configuration.cells[..]), P);
      if NonNegative(before) {
        ClampedRenderLength(before);
      }
    }
  }

  /** The CLG reference of `cid`: L drawn characters, each '0' or '1'. */
  function ReferenceString(L: nat, bit: nat -> bool): (r: string)
    ensures |r| == L && forall i :: 0 <= i < L ==> r[i] == '0' || r[i] == '1'
  {
    seq(L, (i: int) requires 0 <= i => if bit(i) then '1' else '0')
  }

  /** order lists every position below L exactly once. */
  predicate IsPermutation(order: seq<nat>, L: nat)
  {
    && |order| == L
    && (forall i :: 0 <= i < L ==> order[i] < L)
    && (forall i, j :: 0 <= i < j < L ==> order[i] != order[j])
  }

  /** The entries of a in the shuffled order: each entry occurs as often as
      in a, since shuffling only reorders. */
  function Permute(a: seq<int>, order: seq<nat>): (r: seq<int>)
    requires IsPermutation(order, |a|)
    ensures |r| == |a| && forall i :: 0 <= i < |a| ==> r[i] in a
    ensures multiset(r) == multiset(a)
  {
    var r := seq(|a|, i requires 0 <= i < |a| => a[order[i]]);
    GatherKeepsMultiset(r, a, order);
    r
  }

  /** Distinct values below n are at most n in number. */
  lemma {:induction false} DistinctBound(s: seq<nat>, n: nat)
    requires forall i :: 0 <= i < |s| ==> s[i] < n
    requires forall i, j :: 0 <= i < j < |s| ==> s[i] != s[j]
    ensures |s| <= n
    decreases n
  {
    if s != [] {
      assert s[0] < n;
      if exists j :: 0 <= j < |s| && s[j] == n - 1 {
        var j :| 0 <= j < |s| && s[j] == n - 1;
        var t := s[..j] + s[j + 1..];
        assert forall i :: 0 <= i < |t| ==> t[i] == if i < j then s[i] else s[i + 1];
        DistinctBound(t, n - 1);
      } else {
        DistinctBound(s, n - 1);
      }
    }
  }

  /** Distinct values below n that avoid v number fewer than n. */
  lemma AvoidingBound(s: seq<nat>, n: nat, v: nat)
    requires v < n
    requires forall i :: 0 <= i < |s| ==> s[i] < n
    requires forall i, j :: 0 <= i < j < |s| ==> s[i] != s[j]
    ensures (forall i :: 0 <= i < |s| ==> s[i] != v) ==> |s| < n
  {
    if forall i :: 0 <= i < |s| ==> s[i] != v {
      var t: seq<nat> := seq(|s|, i requires 0 <= i < |s| => if s[i] > v then s[i] - 1 else s[i]);
      DistinctBound(t, n - 1);
    }
  }

  /** A permutation order reaches every position below L. */
  lemma PermutationReaches(order: seq<nat>, L: nat, v: nat)
    requires IsPermutation(order, L) && v < L
    ensures exists k :: 0 <= k < L && order[k] == v
  {
    AvoidingBound(order, L, v);
  }

  /** r lists the entries of a in the order given by order. */
  predicate Gathers(r: seq<int>, a: seq<int>, order: seq<nat>)
  {
    && |r| == |order|
    && forall i :: 0 <= i < |r| ==> order[i] < |a| && r[i] == a[order[i]]
  }

  /** Dropping the position k that holds the last index from a permutation
      order leaves a permutation order of one position fewer. */
  lemma DropLast(order: seq<nat>, k: nat)
    requires IsPermutation(order, |order|) && k < |order| && order[k] == |order| - 1
    ensures IsPermutation(order[..k] + order[k + 1..], |order| - 1)
  {
    var rest := order[..k] + order[k + 1..];
    assert forall i :: 0 <= i < |rest| ==> rest[i] == if i < k then order[i] else order[i + 1];
  }

  /** With position k dropped from both, r still gathers a without its last
      entry, which r held at position k. */
  lemma GatherDrop(r: seq<int>, a: seq<int>, order: seq<nat>, k: nat)
    requires IsPermutation(order, |a|) && Gathers(r, a, order)
    requires k < |a| && order[k] == |a| - 1
    ensures Gathers(r[..k] + r[k + 1..], a[..|a| - 1], order[..k] + order[k + 1..])
    ensures r[k] == a[|a| - 1]
  {
    var rest := order[..k] + order[k + 1..];
    var r' := r[..k] + r[k + 1..];
    assert forall i :: 0 <= i < |rest| ==> rest[i] == if i < k then order[i] else order[i + 1];
    assert forall i :: 0 <= i < |r'| ==> r'[i] == if i < k then r[i] else r[i + 1];
  }

  /** One step of the induction below: dropping the last entry of a and the
      matching position k of r and order. */
  lemma GatherStep(r: seq<int>, a: seq<int>, order: seq<nat>, k: nat)
    requires IsPermutation(order, |a|) && Gathers(r, a, order)
    requires k < |a| && order[k] == |a| - 1
    ensures IsPermutation(order[..k] + order[k + 1..], |a| - 1)
    ensures Gathers(r[..k] + r[k + 1..], a[..|a| - 1], order[..k] + order[k + 1..])
    ensures multiset(r) == multiset(r[..k] + r[k + 1..]) + multiset{a[|a| - 1]}
  {
    DropLast(order, k);
    GatherDrop(r, a, order, k);
    MultisetWithout(r, k);
  }

  /** Gathering the entries of a by a permutation order keeps each entry
      as often as a holds it. */
  lemma {:induction false} GatherKeepsMultiset(r: seq<int>, a: seq<int>, order: seq<nat>)
    requires IsPermutation(order, |a|) && Gathers(r, a, order)
    ensures multiset(r) == multiset(a)
    decreases |a|
  {
    if a != [] {
      var L := |a|;
      PermutationReaches(order, L, L - 1);
      var k :| 0 <= k < L && order[k] == L - 1;
      GatherStep(r, a, order, k);
      GatherKeepsMultiset(r[..k] + r[k + 1..], a[..L - 1], order[..k] + order[k + 1..]);
      MultisetWithout(a, L - 1);
      assert a[..L - 1] + a[L..] == a[..L - 1];
    }
  }

  /** The entries of s are those of s without position k, plus s[k]. */
  lemma MultisetWithout(s: seq<int>, k: nat)
    requires k < |s|
    ensures multiset(s) == multiset(s[..k] + s[k + 1..]) + multiset{s[k]}
  {
    assert s == s[..k] + [s[k]] + s[k + 1..];
  }

  /** The two counts `cid` divides. */
  datatype CidCounts = CidCounts(patterns: nat, reference: nat)

  /** `cid` up to its floating-point ratio: the pattern count of the
      configuration and the count it is normalised by. For the CLG that is
      the pattern count of a drawn 0/1 string of the same length; for the
      Manna model the pattern count of the clamped lattice in a drawn order
      (the copy is taken after the clamp has changed the caller's array), or
      else the lattice size. The bits `bit` and the order `order` stand for
      numpy's generator. */
  method Cid(configuration: Configuration, model: string, randomShuffle: bool,
             bit: nat -> bool, order: seq<nat>) returns (r: Result<CidCounts>)
    requires model == "manna" && randomShuffle && configuration.Cells? ==>
      IsPermutation(order, configuration.cells.Length)
    modifies Footprint(configuration)
    ensures model == "clg" && configuration.Text? ==>
      && r.Ok?
      && Lz78Count(configuration.text, r.value.patterns)
      && Lz78Count(ReferenceString(|configuration.text|, bit), r.value.reference)
    ensures model == "clg" && configuration.Cells? ==> r == Err(ConfigurationNotString)
    ensures model == "manna" && configuration.Cells? ==>
      var flat := Clamp(old(configuration.cells[..]));
      && configuration.cells[..] == flat
      && r.Ok? && Lz78Count(Render(flat), r.value.patterns)
      && (randomShuffle ==> Lz78Count(Render(Permute(flat, order)), r.value.reference))
      && (!randomShuffle ==> r.value.reference == |flat|)
    ensures model == "manna" && configuration.Text? ==>
      r == if configuration.text == "" then Ok(CidCounts(0, 0)) else Err(NonNumericConfiguration)
    ensures model != "clg" && model != "manna" ==> r == Err(UnknownModel)
    ensures model != "manna" || configuration.Text? ==> unchanged(Footprint(configuration))
  {
    if model == "clg" {
      var n := NumberOfPatterns(configuration, "clg");
      if n.Err? {
        return Err(n.error);
      }
      var reference := ReferenceString(|configuration.text|, bit);
      var m := NumberOfPatterns(Text(reference), "clg");
      return Ok(CidCounts(n.value, m.value));
    } else if model == "manna" {
      var n := NumberOfPatterns(configuration, "manna");
      if n.Err? {
        return Err(n.error);
      }
      if configuration.Text? {
        return Ok(CidCounts(n.value, 0));
      }
      if randomShuffle {
        var shuffled := Permute(configuration.cells[..], order);
        var m := NumberOfPatterns(Text(Render(shuffled)), "clg");
        return Ok(CidCounts(n.value, m.value));
      }
      return Ok(CidCounts(n.value, configuration.cells.Length));
    }
    return Err(UnknownModel);
  }
}
