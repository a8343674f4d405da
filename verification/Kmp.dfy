/**
 Knuth-Morris-Pratt search of utstring.h: the strong failure table, the search
 from the left, and the mirrored pair that goes from the right.
 */
module Kmp {
  import opened Arith

  // ---------------------------------------------------------------- what the search is for

  /** x stands in d at position p. */
  ghost predicate OccursAt(d: string, x: string, p: int) {
    0 <= p && p + |x| <= |d| && d[p..p + |x|] == x
  }

  /** k is the length of a proper border of x[..i]: a prefix that is also a suffix. */
  ghost predicate Border(x: string, i: nat, k: int) {
    0 <= k < i <= |x| && x[..k] == x[i - k..i]
  }

  /** v is the longest proper border of x[..i], or -1 when x[..i] is empty. */
  ghost predicate LongestBorder(x: string, i: nat, v: int) {
    && (v == -1 || Border(x, i, v))
    && (forall k {:trigger Border(x, i, k)} | v < k < i :: !Border(x, i, k))
  }

  /** v is the longest proper border of x[..i] after which x does not go on with x[i]; -1 if none. */
  ghost predicate StrongFailure(x: string, i: nat, v: int)
    requires i < |x|
  {
    && (v == -1 || (Border(x, i, v) && x[v] != x[i]))
    && (forall k {:trigger Border(x, i, k)} | v < k < i :: Border(x, i, k) ==> x[k] == x[i])
  }

  ghost predicate IsTable(x: string, table: seq<int>) {
    && |table| == |x| + 1
    && (forall i | 0 <= i < |x| :: StrongFailure(x, i, table[i]))
    && LongestBorder(x, |x|, table[|x|])
  }

  // ---------------------------------------------------------------- borders

  lemma BorderExtends(x: string, i: nat, k: nat)
    requires i < |x| && k < i
    ensures Border(x, i + 1, k + 1) <==> Border(x, i, k) && x[k] == x[i]
  {
    assert x[..k + 1] == x[..k] + [x[k]];
    assert x[i - k..i + 1] == x[i - k..i] + [x[i]];
    if Border(x, i + 1, k + 1) {
      assert x[..k] == x[..k + 1][..k];
      assert x[i - k..i] == x[i - k..i + 1][..k];
      assert x[k] == x[..k + 1][k] == x[i - k..i + 1][k] == x[i];
    }
  }

  lemma BorderOfBorder(x: string, i: nat, j: nat, k: nat)
    requires Border(x, i, j) && k < j
    ensures Border(x, j, k) <==> Border(x, i, k)
  {
    assert x[i - k..i] == x[i - j..i][j - k..];
    assert x[j - k..j] == x[..j][j - k..];
  }

  /** While looking for the border to extend at i: j may still do, everything longer may not. */
  ghost predicate Candidate(x: string, i: nat, j: int)
    requires i < |x|
  {
    && (j == -1 || Border(x, i, j) || i == j == 0)
    && (forall k {:trigger Border(x, i, k)} | j < k < i :: Border(x, i, k) ==> x[k] != x[i])
  }

  /** A jump through the table skips no border that could be extended. */
  lemma FallBack(x: string, i: nat, j: nat, v: int)
    requires j < i < |x| && Candidate(x, i, j) && x[i] != x[j] && StrongFailure(x, j, v)
    ensures Candidate(x, i, v) && v < j
  {
    if v != -1 { BorderOfBorder(x, i, j, v); }
    forall k | v < k < i && Border(x, i, k) ensures x[k] != x[i] {
      if k < j { BorderOfBorder(x, i, j, k); }
    }
  }

  lemma Accept(x: string, i: nat, j: int)
    requires i < |x| && -1 <= j < i && Candidate(x, i, j) && (j == -1 || x[j] == x[i])
    ensures LongestBorder(x, i + 1, j + 1)
  {
    if j != -1 { BorderExtends(x, i, j); }
    forall k {:trigger Border(x, i + 1, k)} | j + 1 < k < i + 1 ensures !Border(x, i + 1, k) {
      BorderExtends(x, i, k - 1);
    }
  }

  /** The entry written for i. */
  lemma Entry(x: string, i: nat, j: nat, v: int)
    requires j < i < |x| && LongestBorder(x, i, j) && StrongFailure(x, j, v)
    ensures StrongFailure(x, i, if x[i] == x[j] then v else j)
  {
    if x[i] == x[j] {
      if v != -1 { BorderOfBorder(x, i, j, v); }
      forall k | v < k < i && Border(x, i, k) ensures x[k] == x[i] {
        if k < j { BorderOfBorder(x, i, j, k); }
      }
    }
  }

  // ---------------------------------------------------------------- building the table

  /** f gives the first entries of the table of x. */
  ghost predicate Entries(x: string, f: seq<int>) {
    |f| <= |x| && forall k | 0 <= k < |f| :: StrongFailure(x, k, f[k])
  }

  /** The build has reached i with border j. */
  ghost predicate Building(x: string, f: seq<int>, i: nat, j: int) {
    && -1 <= j < i <= |x| && (j == -1 ==> i == 0)
    && Entries(x, f) && |f| == Min(i + 1, |x|)
    && LongestBorder(x, i, j)
  }

  ghost function Extended(x: string, f: seq<int>, v: nat): seq<int>
    requires v < |f|
  {
    if |f| >= |x| then f else f + [if x[|f|] == x[v] then f[v] else v]
  }

  lemma BuildingStep(x: string, f: seq<int>, i: nat, j: int, v: nat)
    requires Building(x, f, i, j) && i < |x| && v <= i && LongestBorder(x, i + 1, v)
    ensures Building(x, Extended(x, f, v), i + 1, v)
  {
    var f' := Extended(x, f, v);
    if i + 1 < |x| {
      assert StrongFailure(x, v, f[v]);
      Entry(x, i + 1, v, f[v]);
      assert f' == f + [f'[i + 1]];
      forall k | 0 <= k < |f'| ensures StrongFailure(x, k, f'[k]) {
        if k <= i { assert f'[k] == f[k]; }
      }
    }
  }

  ghost predicate Holds(table: array<int>, f: seq<int>)
    reads table
  {
    |f| <= table.Length && forall t | 0 <= t < |f| :: table[t] == f[t]
  }

  /** The inner loop: falls back to the longest border that goes on with needle[i]. */
  method FallBackFrom(needle: string, table: array<int>, i: nat, j0: int, ghost f: seq<int>)
    returns (j: int, ghost jumps: nat)
    requires i < |needle| && Building(needle, f, i, j0) && Holds(table, f)
    ensures -1 <= j < i && LongestBorder(needle, i + 1, j + 1)
    ensures jumps + j <= j0
  {
    j, jumps := j0, 0;
    while j > -1 && needle[i] != needle[j]
      invariant -1 <= j < i && Candidate(needle, i, j)
      invariant jumps + j <= j0
      decreases j
    {
      FallBack(needle, i, j, f[j]);
      j := table[j];
      jumps := jumps + 1;
    }
    Accept(needle, i, j);
  }

  method WriteEntry(needle: string, table: array<int>, i: nat, j: nat, ghost f: seq<int>)
    requires table.Length >= |needle| + 1
    requires j < i <= |needle| && |f| == i && Holds(table, f)
    modifies table
    ensures Holds(table, Extended(needle, f, j))
    ensures i == |needle| ==> table[i] == j
    ensures forall k | |needle| + 1 <= k < table.Length :: table[k] == old(table[k])
  {
    if i < |needle| {
      if needle[i] == needle[j] {
        table[i] := table[j];
      } else {
        table[i] := j;
      }
    } else {
      table[i] := j;
    }
  }

  /** `jumps` counts the turns of the inner loop over the whole build. */
  method BuildTable(needle: string, table: array<int>) returns (ghost jumps: nat)
    requires table.Length >= |needle| + 1
    modifies table
    ensures IsTable(needle, table[..|needle| + 1])
    ensures forall k | |needle| + 1 <= k < table.Length :: table[k] == old(table[k])
    ensures jumps <= |needle|
  {
    var i, j := 0, -1;
    table[i] := j;
    jumps := 0;
    ghost var f := if needle == "" then [] else [-1];
    while i < |needle|
      invariant i <= |needle| && Building(needle, f, i, j) && Holds(table, f)
      invariant i == |needle| ==> table[i] == j
      invariant forall k | |needle| + 1 <= k < table.Length :: table[k] == old(table[k])
      invariant jumps + j < i
    {
      ghost var more;
      ghost var i0, j0 := i, j;
      j, more := FallBackFrom(needle, table, i, j, f);
      jumps := jumps + more;
      i := i + 1;
      j := j + 1;
      BuildingStep(needle, f, i0, j0, j);
      WriteEntry(needle, table, i, j, f);
      f := Extended(needle, f, j);
    }
    TableDone(needle, table, f, j);
  }

  lemma TableDone(x: string, table: array<int>, f: seq<int>, j: int)
    requires table.Length >= |x| + 1 && Building(x, f, |x|, j) && Holds(table, f) && table[|x|] == j
    ensures IsTable(x, table[..|x| + 1])
  {
  }

  // ---------------------------------------------------------------- searching from the left

  /** The (int) cast of a length: the low 32 bits, read as a signed number. */
  function AsInt(n: nat): int {
    var low := n % 0x1_0000_0000;
    if low < 0x8000_0000 then low else low - 0x1_0000_0000
  }

  /** The needle's first i characters stand just before j, and no occurrence starts earlier. */
  ghost predicate Aligned(hay: string, x: string, i: int, j: nat) {
    && -1 <= i <= j <= |hay| && i <= |x|
    && (i >= 0 ==> hay[j - i..j] == x[..i])
    && (forall p | 0 <= p < j - i :: !OccursAt(hay, x, p))
  }

  /** An occurrence at p that the aligned text overlaps makes a border of x[..i]. */
  lemma OverlapIsBorder(hay: string, x: string, i: nat, j: nat, p: nat)
    requires i <= j < |hay| && i < |x| && j - i <= p <= j && hay[j - i..j] == x[..i] && OccursAt(hay, x, p)
    requires j < p + |x|
    ensures x[j - p] == hay[j] && (j - p < i ==> Border(x, i, j - p))
  {
    var k := j - p;
    assert x[k] == hay[p..p + |x|][k] == hay[j];
    if k < i {
      assert x[..k] == hay[p..p + |x|][..k] == hay[p..j];
      assert x[i - k..i] == x[..i][i - k..] == hay[j - i..j][i - k..] == hay[p..j];
    }
  }

  /** A jump through the table skips no occurrence. */
  lemma Skip(hay: string, x: string, i: nat, j: nat, v: int)
    requires i < |x| && j < |hay| && Aligned(hay, x, i, j) && x[i] != hay[j] && StrongFailure(x, i, v)
    ensures Aligned(hay, x, v, j) && v < i
  {
    if v != -1 {
      assert hay[j - v..j] == hay[j - i..j][i - v..] == x[..i][i - v..] == x[i - v..i];
    }
    forall p | 0 <= p < j - v ensures !OccursAt(hay, x, p) {
      if j - i <= p && OccursAt(hay, x, p) {
        OverlapIsBorder(hay, x, i, j, p);
      }
    }
  }

  lemma Advance(hay: string, x: string, i: int, j: nat)
    requires i < |x| && j < |hay| && Aligned(hay, x, i, j) && (i == -1 || x[i] == hay[j])
    ensures Aligned(hay, x, i + 1, j + 1)
  {
    if i >= 0 {
      assert hay[j - i..j + 1] == hay[j - i..j] + [hay[j]];
      assert x[..i + 1] == x[..i] + [x[i]];
    }
  }

  /**
   The search loop. `pos` is the first occurrence, and -1 exactly when there is none;
   `jumps` counts the turns of the inner loop.
   */
  method Find(hay: string, needle: string, table: array<int>) returns (pos: int, ghost jumps: nat)
    requires 0 < |needle| < 0x8000_0000 && |hay| < 0x8000_0000
    requires table.Length == |needle| + 1 && IsTable(needle, table[..])
    ensures pos == -1 ==> forall p :: !OccursAt(hay, needle, p)
    ensures pos != -1 ==> OccursAt(hay, needle, pos) && forall p | p < pos :: !OccursAt(hay, needle, p)
    ensures jumps <= |hay|
  {
    var i, j := 0, 0;
    pos, jumps := -1, 0;
    assert AsInt(|hay|) == |hay| && AsInt(|needle|) == |needle|;
    while j < AsInt(|hay|) && |hay| - j + i >= |needle|
      invariant 0 <= i <= j <= |hay| && i < |needle| && Aligned(hay, needle, i, j)
      invariant jumps + i <= j
      decreases |hay| - j
    {
      ghost var more;
      i, more := Retreat(hay, needle, table, i, j);
      jumps := jumps + more;
      i := i + 1;
      j := j + 1;
      if i >= AsInt(|needle|) {
        FoundFirst(hay, needle, j);
        pos := j - i;
        return;
      }
    }
    Exhausted(hay, needle, i, j);
  }

  lemma FoundFirst(hay: string, x: string, j: nat)
    requires Aligned(hay, x, |x|, j)
    ensures OccursAt(hay, x, j - |x|) && forall p | p < j - |x| :: !OccursAt(hay, x, p)
  {
  }

  lemma Exhausted(hay: string, x: string, i: int, j: nat)
    requires Aligned(hay, x, i, j) && |hay| - j + i < |x|
    ensures forall p :: !OccursAt(hay, x, p)
  {
  }

  /** The inner loop: falls back until the needle can go on with hay[j]. */
  method Retreat(hay: string, needle: string, table: array<int>, i0: nat, j: nat) returns (i: int, ghost jumps: nat)
    requires table.Length == |needle| + 1 && IsTable(needle, table[..])
    requires i0 < |needle| && j < |hay| && Aligned(hay, needle, i0, j)
    ensures -1 <= i && i + jumps <= i0 && Aligned(hay, needle, i + 1, j + 1)
  {
    i, jumps := i0, 0;
    while i > -1 && needle[i] != hay[j]
      invariant -1 <= i <= i0 && jumps + i <= i0 && Aligned(hay, needle, i, j)
      decreases i
    {
      assert table[..][i] == table[i];
      Skip(hay, needle, i, j, table[i]);
      i := table[i];
      jumps := jumps + 1;
    }
    Advance(hay, needle, i, j);
  }

  // ---------------------------------------------------------------- from the right
  // The mirrored routines do on x what the routines above do on its mirror image, with an
  // index i standing for k == |x| - 1 - i. Entry i + 1 of their table belongs to i.

  /** r is s read backwards. */
  ghost predicate Mirrors(r: string, s: string) {
    |r| == |s| && forall k {:trigger r[k]} | 0 <= k < |s| :: r[k] == s[|s| - 1 - k]
  }

  ghost function Rev(s: string): (r: string)
    ensures Mirrors(r, s)
  {
    if s == "" then "" else Rev(s[1..]) + [s[0]]
  }

  lemma OccursMirrored(d: string, x: string, d': string, x': string, p: int)
    requires Mirrors(d', d) && Mirrors(x', x)
    ensures OccursAt(d, x, p) <==> OccursAt(d', x', |d| - |x| - p)
  {
    var q := |d| - |x| - p;
    if OccursAt(d, x, p) {
      forall k | 0 <= k < |x| ensures d'[q..q + |x|][k] == x'[k] {
        assert d[p..p + |x|][|x| - 1 - k] == x[|x| - 1 - k];
        assert d'[q + k] == d[p + |x| - 1 - k];
      }
    }
    if OccursAt(d', x', q) {
      forall k | 0 <= k < |x| ensures d[p..p + |x|][k] == x[k] {
        assert d'[q..q + |x|][|x| - 1 - k] == x'[|x| - 1 - k];
        assert d'[q + |x| - 1 - k] == d[p + k];
      }
    }
  }

  /** The mirrored table: entry |x| - k holds f[k], counted from the other end. */
  ghost predicate HoldsR(x: string, table: array<int>, f: seq<int>)
    requires table.Length >= |x| + 1 && |f| <= |x|
    reads table
  {
    forall t | |x| - |f| < t <= |x| :: table[t] == |x| - 1 - f[|x| - t]
  }

  /** The table for searching from the right, when the entries for the mirror image x are f. */
  ghost predicate IsTableR(x: string, f: seq<int>, table: array<int>)
    requires table.Length >= |x| + 1
    reads table
  {
    Entries(x, f) && |f| == |x| && HoldsR(x, table, f) && LongestBorder(x, |x|, |x| - 1 - table[0])
  }

  method FallBackFromR(needle: string, table: array<int>, i: nat, j0: int,
                       ghost x: string, ghost f: seq<int>, ghost u: nat, ghost v0: int)
    returns (j: int, ghost v: int, ghost jumps: nat)
    requires Mirrors(x, needle) && i < |needle| && u == |x| - 1 - i && v0 == |x| - 1 - j0
    requires table.Length >= |x| + 1 && Building(x, f, u, v0) && HoldsR(x, table, f)
    ensures v == |x| - 1 - j && -1 <= v < u && jumps + v <= v0
    ensures LongestBorder(x, u + 1, v + 1)
  {
    j, v, jumps := j0, v0, 0;
    while j < |needle| && needle[i] != needle[j]
      invariant v == |x| - 1 - j && -1 <= v < u
      invariant Candidate(x, u, v)
      invariant jumps + v <= v0
      decreases v
    {
      assert x[u] == needle[i] && x[v] == needle[j];
      FallBack(x, u, v, f[v]);
      j := table[j + 1];
      v := f[v];
      jumps := jumps + 1;
    }
    assert x[u] == needle[i] && (v >= 0 ==> x[v] == needle[j]);
    Accept(x, u, v);
  }

  method WriteEntryR(needle: string, table: array<int>, i: int, j: nat, ghost x: string, ghost f: seq<int>,
                     ghost u: nat, ghost v: nat)
    requires Mirrors(x, needle) && table.Length >= |x| + 1
    requires 0 < u <= |x| && |f| == u && v < u && i == |x| - 1 - u && j == |x| - 1 - v && HoldsR(x, table, f)
    modifies table
    ensures HoldsR(x, table, Extended(x, f, v))
    ensures u == |x| ==> table[0] == j
  {
    if i >= 0 {
      assert x[u] == needle[i] && x[v] == needle[j];
      if needle[i] == needle[j] {
        table[i + 1] := table[j + 1];
      } else {
        table[i + 1] := j;
      }
    } else {
      table[i + 1] := j;
    }
  }

  method BuildTableR(needle: string, table: array<int>, ghost x: string) returns (ghost f: seq<int>, ghost jumps: nat)
    requires Mirrors(x, needle) && table.Length >= |needle| + 1
    modifies table
    ensures IsTableR(x, f, table)
    ensures jumps <= |needle|
  {
    var i, j := |needle| - 1, |needle|;
    table[i + 1] := j;
    f, jumps := if x == "" then [] else [-1], 0;
    ghost var u, v := 0, -1;
    while i >= 0
      invariant u == |x| - 1 - i && v == |x| - 1 - j && u <= |x|
      invariant Building(x, f, u, v) && HoldsR(x, table, f)
      invariant u == |x| ==> table[0] == j
      invariant jumps + v < u
      decreases i
    {
      ghost var more;
      ghost var u0, v0 := u, v;
      j, v, more := FallBackFromR(needle, table, i, j, x, f, u, v);
      jumps := jumps + more;
      i := i - 1;
      j := j - 1;
      u, v := u + 1, v + 1;
      BuildingStep(x, f, u0, v0, v);
      WriteEntryR(needle, table, i, j, x, f, u, v);
      f := Extended(x, f, v);
    }
  }

  method RetreatR(hay: string, needle: string, table: array<int>, i0: nat, j: nat,
                  ghost h: string, ghost x: string, ghost f: seq<int>, ghost u0: nat, ghost w: nat)
    returns (i: int, ghost u: int, ghost jumps: nat)
    requires Mirrors(h, hay) && Mirrors(x, needle)
    requires i0 < |needle| && j < |hay| && u0 == |x| - 1 - i0 && w == |h| - 1 - j
    requires |needle| < 0x8000_0000 && table.Length == |needle| + 1 && IsTableR(x, f, table)
    requires Aligned(h, x, u0, w)
    ensures u == |x| - 1 - i && -1 <= u && u + jumps <= u0 && Aligned(h, x, u + 1, w + 1)
  {
    i, u, jumps := i0, u0, 0;
    while i < AsInt(|needle|) && needle[i] != hay[j]
      invariant u == |x| - 1 - i && -1 <= u && u + jumps <= u0 && Aligned(h, x, u, w)
      decreases u
    {
      assert x[u] == needle[i] && h[w] == hay[j];
      Skip(h, x, u, w, f[u]);
      i := table[i + 1];
      u := f[u];
      jumps := jumps + 1;
    }
    assert h[w] == hay[j] && (u >= 0 ==> x[u] == needle[i]);
    Advance(h, x, u, w);
  }

  /** `pos` is the last occurrence, and -1 exactly when there is none. */
  method FindR(hay: string, needle: string, table: array<int>, ghost x: string, ghost f: seq<int>)
    returns (pos: int, ghost jumps: nat)
    requires 0 < |needle| < 0x8000_0000 && |hay| < 0x8000_0000
    requires Mirrors(x, needle) && table.Length == |needle| + 1 && IsTableR(x, f, table)
    ensures pos == -1 ==> forall p :: !OccursAt(hay, needle, p)
    ensures pos != -1 ==> OccursAt(hay, needle, pos) && forall p | pos < p :: !OccursAt(hay, needle, p)
    ensures jumps <= |hay|
  {
    var j, i := |hay| - 1, |needle| - 1;
    pos, jumps := -1, 0;
    ghost var h := Rev(hay);
    ghost var u, w := 0, 0;
    while j >= 0 && j >= i
      invariant u == |x| - 1 - i && w == |h| - 1 - j && -1 <= j && 0 <= i && 0 <= u
      invariant Aligned(h, x, u, w)
      invariant jumps + u <= w
      decreases j
    {
      ghost var more;
      i, u, more := RetreatR(hay, needle, table, i, j, h, x, f, u, w);
      jumps := jumps + more;
      i := i - 1;
      j := j - 1;
      u, w := u + 1, w + 1;
      if i < 0 {
        pos := j + 1;
        FoundR(hay, needle, h, x, w, pos);
        return;
      }
    }
    Exhausted(h, x, u, w);
    NowhereR(hay, needle, h, x);
  }

  lemma FoundR(hay: string, needle: string, h: string, x: string, w: nat, pos: int)
    requires Mirrors(h, hay) && Mirrors(x, needle) && Aligned(h, x, |x|, w) && pos == |h| - w
    ensures OccursAt(hay, needle, pos) && forall p | pos < p :: !OccursAt(hay, needle, p)
  {
    assert OccursAt(h, x, w - |x|);
    OccursMirrored(hay, needle, h, x, pos);
    forall p | pos < p ensures !OccursAt(hay, needle, p) {
      OccursMirrored(hay, needle, h, x, p);
    }
  }

  lemma NowhereR(hay: string, needle: string, h: string, x: string)
    requires Mirrors(h, hay) && Mirrors(x, needle) && forall p :: !OccursAt(h, x, p)
    ensures forall p :: !OccursAt(hay, needle, p)
  {
    forall p ensures !OccursAt(hay, needle, p) {
      OccursMirrored(hay, needle, h, x, p);
    }
  }

  // ---------------------------------------------------------------- the entry points

  /**
   Searches s from `start` on; a negative start counts from the end. The result is the
   first occurrence at or after the start, and -1 when there is none or needle is empty.
   */
  method UtstringFind(s: string, start: int, needle: string) returns (pos: int)
    requires |s| < 0x8000_0000 && |needle| < 0x8000_0000
    requires start >= -|s|
    ensures var from := if start < 0 then |s| + start else start;
            if pos == -1 then needle == "" || forall p | from <= p :: !OccursAt(s, needle, p)
            else needle != "" && from <= pos && OccursAt(s, needle, pos) &&
                 forall p | from <= p < pos :: !OccursAt(s, needle, p)
  {
    var from := if start < 0 then |s| + start else start;
    var hayLen := |s| - from;
    pos := -1;
    if hayLen >= |needle| && |needle| > 0 {
      var table := new int[|needle| + 1];
      ghost var jumps := BuildTable(needle, table);
      assert table[..] == table[..|needle| + 1];
      pos, jumps := Find(s[from..], needle, table);
      OccursInSuffix(s, needle, from);
      if pos >= 0 {
        pos := pos + from;
      }
    }
  }

  lemma OccursInSuffix(s: string, x: string, from: nat)
    requires from <= |s|
    ensures forall p | from <= p :: OccursAt(s, x, p) <==> OccursAt(s[from..], x, p - from)
  {
    forall p | from <= p && p + |x| <= |s| ensures OccursAt(s, x, p) <==> OccursAt(s[from..], x, p - from) {
      assert s[from..][p - from..p - from + |x|] == s[p..p + |x|];
    }
  }

  /**
   Searches s[..start + 1] from the right; a negative start counts from the end. The result
   is the last occurrence that ends at or before start, and -1 when there is none or
   needle is empty.
   */
  method UtstringFindR(s: string, start: int, needle: string) returns (pos: int)
    requires |s| < 0x8000_0000 && |needle| < 0x8000_0000
    requires start < |s|
    ensures var end := 1 + (if start < 0 then |s| + start else start);
            if pos == -1 then needle == "" || forall p | p + |needle| <= end :: !OccursAt(s, needle, p)
            else needle != "" && pos + |needle| <= end && OccursAt(s, needle, pos) &&
                 forall p | pos < p && p + |needle| <= end :: !OccursAt(s, needle, p)
  {
    var end := 1 + (if start < 0 then |s| + start else start);
    pos := -1;
    if end >= |needle| && |needle| > 0 {
      var table := new int[|needle| + 1];
      ghost var x := Rev(needle);
      ghost var f, jumps := BuildTableR(needle, table, x);
      pos, jumps := FindR(s[..end], needle, table, x, f);
      OccursInPrefix(s, needle, end);
    }
  }

  lemma OccursInPrefix(s: string, x: string, end: nat)
    requires end <= |s|
    ensures forall p | p + |x| <= end :: OccursAt(s, x, p) <==> OccursAt(s[..end], x, p)
  {
    forall p | 0 <= p && p + |x| <= end ensures OccursAt(s, x, p) <==> OccursAt(s[..end], x, p) {
      assert s[..end][p..p + |x|] == s[p..p + |x|];
    }
  }
}
