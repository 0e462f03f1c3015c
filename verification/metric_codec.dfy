/** The wire form of a metric: MarshalJSON, UnmarshalJSON, ekStr and ekParse in internal/routing/customize.go.

  Edge keys travel as "from:to" strings in decimal. JSON itself is not modelled: the wire value is
  the struct the JSON text stands for.
  */
module MetricCodec {
  import opened Wrappers
  import opened RoadGraph
  import opened Customization

  const MIN_INT64: int := -0x8000_0000_0000_0000
  const MAX_INT64: int := 0x7fff_ffff_ffff_ffff

  predicate Int64(n: int) { MIN_INT64 <= n <= MAX_INT64 }

  predicate Int64Key(k: EdgeKey) { Int64(k.from) && Int64(k.to) }

  // ---------------------------------------------------------------- decimal numbers

  predicate IsDigit(c: char) { '0' <= c <= '9' }

  function DigitChar(d: nat): (c: char)
    requires d < 10
    ensures IsDigit(c)
  {
    '0' + d as char
  }

  function DigitValue(c: char): (d: nat)
    requires IsDigit(c)
    ensures d < 10
  {
    (c - '0') as nat
  }

  function Digits(n: nat): (s: string)
    ensures s != [] && forall i :: 0 <= i < |s| ==> IsDigit(s[i])
  {
    if n < 10 then [DigitChar(n)] else Digits(n / 10) + [DigitChar(n % 10)]
  }

  function FormatInt(n: int): string
  {
    if n < 0 then "-" + Digits(-n) else Digits(n)
  }

  /** The number a string of digits denotes. */
  function Value(s: string): nat
    requires forall i :: 0 <= i < |s| ==> IsDigit(s[i])
  {
    if s == [] then 0 else 10 * Value(s[..|s| - 1]) + DigitValue(s[|s| - 1])
  }

  lemma {:induction false} ValueOfDigits(n: nat)
    ensures Value(Digits(n)) == n
  {
    if n < 10 {
      assert Digits(n)[..0] == [];
    } else {
      ValueOfDigits(n / 10);
      assert Digits(n)[..|Digits(n)| - 1] == Digits(n / 10);
    }
  }

  // ---------------------------------------------------------------- scanning

  /** The length of the longest prefix of digits. */
  function DigitRun(s: string): (n: nat)
    ensures n <= |s|
    ensures forall i :: 0 <= i < n ==> IsDigit(s[i])
    ensures n < |s| ==> !IsDigit(s[n])
  {
    if s == [] || !IsDigit(s[0]) then 0 else 1 + DigitRun(s[1..])
  }

  /** White space other than a newline. */
  predicate IsBlank(c: char)
  {
    || c in {' ', '\t', '\U{000B}', '\U{000C}', '\r', '\U{0085}', '\U{00A0}', '\U{1680}'}
    || '\U{2000}' <= c <= '\U{200A}'
    || c in {'\U{2028}', '\U{2029}', '\U{202F}', '\U{205F}', '\U{3000}'}
  }

  function SkipBlanks(s: string): string
  {
    if s != [] && IsBlank(s[0]) then SkipBlanks(s[1..]) else s
  }

  /** Reads a non-empty run of digits within the signed 64-bit range; yields the number and the rest. */
  function ScanRun(negative: bool, u: string): Option<(int, string)>
  {
    var n := DigitRun(u);
    if n == 0 then None
    else
      var magnitude: int := Value(u[..n]);
      var v := if negative then -magnitude else magnitude;
      if Int64(v) then Some((v, u[n..])) else None
  }

  /** A number after blanks and an optional sign. */
  function ScanInt(s: string): Option<(int, string)>
  {
    var t := SkipBlanks(s);
    if t != [] && t[0] in {'+', '-'} then ScanRun(t[0] == '-', t[1..]) else ScanRun(false, t)
  }

  function EkStr(k: EdgeKey): string
  {
    FormatInt(k.from) + ":" + FormatInt(k.to)
  }

  /** Two numbers separated by a colon; anything after the second number is ignored. */
  function EkParse(s: string): Option<EdgeKey>
  {
    match ScanInt(s)
    case None => None
    case Some((f, rest)) =>
      if rest == [] || rest[0] != ':' then None
      else
        match ScanInt(rest[1..])
        case None => None
        case Some((t, _)) => Some(EdgeKey(f, t))
  }

  lemma {:induction false} DigitRunExact(s: string, rest: string)
    requires forall i :: 0 <= i < |s| ==> IsDigit(s[i])
    requires rest == [] || !IsDigit(rest[0])
    ensures DigitRun(s + rest) == |s|
  {
    if s == [] {
      assert s + rest == rest;
    } else {
      assert (s + rest)[1..] == s[1..] + rest;
      DigitRunExact(s[1..], rest);
    }
  }

  lemma ScanDigits(m: nat, negative: bool, v: int, rest: string)
    requires v == (if negative then 0 - m else m) && Int64(v) && (rest == [] || !IsDigit(rest[0]))
    ensures ScanRun(negative, Digits(m) + rest) == Some((v, rest))
    ensures IsDigit(Digits(m)[0])
  {
    var ds := Digits(m);
    ValueOfDigits(m);
    DigitRunExact(ds, rest);
    assert (ds + rest)[..|ds|] == ds && (ds + rest)[|ds|..] == rest;
  }

  /** Scanning reads back a formatted number and stops right after it. */
  lemma ScanFormatted(n: int, rest: string)
    requires Int64(n) && (rest == [] || !IsDigit(rest[0]))
    ensures ScanInt(FormatInt(n) + rest) == Some((n, rest))
  {
    hide ScanRun;
    var m: nat := if n < 0 then -n else n;
    ScanDigits(m, n < 0, n, rest);
    if n < 0 {
      ScanSigned(Digits(m), rest);
    } else {
      ScanPlain(Digits(m), rest);
    }
  }

  lemma ScanSigned(ds: string, rest: string)
    ensures ScanInt("-" + ds + rest) == ScanRun(true, ds + rest)
  {
    hide ScanRun;
    var s := "-" + ds + rest;
    assert s[0] == '-' && s[1..] == ds + rest;
  }

  lemma ScanPlain(ds: string, rest: string)
    requires ds != [] && IsDigit(ds[0])
    ensures ScanInt(ds + rest) == ScanRun(false, ds + rest)
  {
    hide ScanRun;
    assert (ds + rest)[0] == ds[0];
  }

  /** Parsing undoes formatting for every pair of signed 64-bit endpoints. */
  lemma ParseUndoesFormat(k: EdgeKey)
    requires Int64Key(k)
    ensures EkParse(EkStr(k)) == Some(k)
  {
    var rest := ":" + FormatInt(k.to);
    assert EkStr(k) == FormatInt(k.from) + rest;
    ScanFormatted(k.from, rest);
    assert rest[1..] == FormatInt(k.to) == FormatInt(k.to) + "";
    ScanFormatted(k.to, "");
  }

  lemma FormatIsInjective(a: EdgeKey, b: EdgeKey)
    requires Int64Key(a) && Int64Key(b) && EkStr(a) == EkStr(b)
    ensures a == b
  {
    ParseUndoesFormat(a);
    ParseUndoesFormat(b);
  }

  // ---------------------------------------------------------------- encoding

  datatype WireMetric = WireMetric(classMult: map<RoadClass, real>, edgeMult: map<string, real>, closed: seq<string>)

  ghost predicate Int64Keys(m: Metric)
  {
    (forall k :: k in m.edgeMult ==> Int64Key(k)) && (forall k :: k in m.closed ==> Int64Key(k))
  }

  /** The wire value carries every multiplier and exactly the edges that are closed. */
  ghost predicate Encodes(m: Metric, w: WireMetric)
  {
    && w.classMult == m.classMult
    && (forall k :: k in m.edgeMult ==> EkStr(k) in w.edgeMult && w.edgeMult[EkStr(k)] == m.edgeMult[k])
    && (forall s :: s in w.edgeMult ==> exists k :: k in m.edgeMult && s == EkStr(k))
    && (forall s :: s in w.closed <==> exists k :: IsClosed(m, k) && s == EkStr(k))
  }

  method MarshalJSON(m: Metric) returns (w: WireMetric)
    requires Int64Keys(m)
    ensures Encodes(m, w)
  {
    hide EkStr;
    var edgeMult: map<string, real> := map[];
    var todo := m.edgeMult.Keys;
    while todo != {}
      invariant todo <= m.edgeMult.Keys
      invariant forall k :: k in m.edgeMult && k !in todo ==>
                  EkStr(k) in edgeMult && edgeMult[EkStr(k)] == m.edgeMult[k]
      invariant forall s :: s in edgeMult ==> exists k :: k in m.edgeMult && s == EkStr(k)
      decreases todo
    {
      var k :| k in todo;
      forall j | j in m.edgeMult && EkStr(j) == EkStr(k)
        ensures j == k
      {
        FormatIsInjective(j, k);
      }
      edgeMult := edgeMult[EkStr(k) := m.edgeMult[k]];
      todo := todo - {k};
    }
    var closed: seq<string> := [];
    var rest := m.closed.Keys;
    while rest != {}
      invariant rest <= m.closed.Keys
      invariant forall s :: s in closed <==> exists k :: k !in rest && IsClosed(m, k) && s == EkStr(k)
      decreases rest
    {
      var k :| k in rest;
      ghost var before := closed;
      if m.closed[k] {
        closed := closed + [EkStr(k)];
      }
      rest := rest - {k};
      forall s
        ensures s in closed <==> exists j :: j !in rest && IsClosed(m, j) && s == EkStr(j)
      {
        assert s in closed <==> s in before || (m.closed[k] && s == EkStr(k));
      }
    }
    w := WireMetric(m.classMult, edgeMult, closed);
  }

  // ---------------------------------------------------------------- decoding

  /** What decoding w into a receiver r leaves: the class table is replaced, the edge tables only when w has entries. */
  ghost predicate Decodes(r: Metric, w: WireMetric, d: Metric)
  {
    && d.classMult == w.classMult
    && (if |w.edgeMult| == 0 then d.edgeMult == r.edgeMult
        else
          && (forall k :: k in d.edgeMult <==> exists s :: s in w.edgeMult && EkParse(s) == Some(k))
          && (forall k :: k in d.edgeMult ==> exists s :: s in w.edgeMult && EkParse(s) == Some(k)
                                                       && w.edgeMult[s] == d.edgeMult[k]))
    && (if |w.closed| == 0 then d.closed == r.closed
        else forall k :: (IsClosed(d, k) <==> exists s :: s in w.closed && EkParse(s) == Some(k)))
  }

  method UnmarshalJSON(r: Metric, w: WireMetric) returns (d: Metric)
    ensures Decodes(r, w, d)
  {
    hide EkParse;
    var edgeMult := r.edgeMult;
    if |w.edgeMult| > 0 {
      edgeMult := map[];
      var todo := w.edgeMult.Keys;
      while todo != {}
        invariant todo <= w.edgeMult.Keys
        invariant forall k :: k in edgeMult <==> exists s :: s in w.edgeMult && s !in todo && EkParse(s) == Some(k)
        invariant forall k :: k in edgeMult ==>
                    exists s :: s in w.edgeMult && s !in todo && EkParse(s) == Some(k) && w.edgeMult[s] == edgeMult[k]
        decreases todo
      {
        var s :| s in todo;
        ghost var before, left := edgeMult, todo;
        if EkParse(s).Some? {
          edgeMult := edgeMult[EkParse(s).value := w.edgeMult[s]];
        }
        todo := todo - {s};
        DecodeOneMore(w.edgeMult, before, left, s, edgeMult, todo);
      }
    }
    var closed := r.closed;
    if |w.closed| > 0 {
      closed := map[];
      for i := 0 to |w.closed|
        invariant forall k :: k in closed ==> closed[k]
        invariant forall k :: k in closed <==> exists j :: 0 <= j < i && EkParse(w.closed[j]) == Some(k)
      {
        var k := EkParse(w.closed[i]);
        if k.Some? {
          closed := closed[k.value := true];
        }
      }
      forall k
        ensures (k in closed && closed[k]) <==> exists s :: s in w.closed && EkParse(s) == Some(k)
      {
        if s :| s in w.closed && EkParse(s) == Some(k) {
          var j :| 0 <= j < |w.closed| && w.closed[j] == s;
        }
      }
    }
    d := Metric(w.classMult, edgeMult, closed);
  }

  /** Reading one more entry of the wire table extends what has been decoded. */
  lemma DecodeOneMore(table: map<string, real>, before: map<EdgeKey, real>, left: set<string>, s: string,
                      after: map<EdgeKey, real>, left': set<string>)
    requires left <= table.Keys && s in left && left' == left - {s}
    requires after == match EkParse(s) { case Some(k) => before[k := table[s]] case None => before }
    requires forall k :: k in before <==> exists t :: t in table && t !in left && EkParse(t) == Some(k)
    requires forall k :: k in before ==>
               exists t :: t in table && t !in left && EkParse(t) == Some(k) && table[t] == before[k]
    ensures forall k :: k in after <==> exists t :: t in table && t !in left' && EkParse(t) == Some(k)
    ensures forall k :: k in after ==>
              exists t :: t in table && t !in left' && EkParse(t) == Some(k) && table[t] == after[k]
  {
    hide EkParse;
    forall k
      ensures k in after <==> exists t :: t in table && t !in left' && EkParse(t) == Some(k)
      ensures k in after ==> exists t :: t in table && t !in left' && EkParse(t) == Some(k) && table[t] == after[k]
    {
      if EkParse(s) == Some(k) {
        assert s in table && s !in left' && EkParse(s) == Some(k) && table[s] == after[k];
      } else {
        assert k in after <==> k in before;
        if t :| t in table && t !in left' && EkParse(t) == Some(k) {
          assert t !in left;
        }
        if k in before {
          var t :| t in table && t !in left && EkParse(t) == Some(k) && table[t] == before[k];
          assert t !in left';
        }
      }
    }
  }

  // ---------------------------------------------------------------- round trip

  /** The same multipliers and the same closed edges; entries that are present but false close nothing. */
  ghost predicate SameMeaning(a: Metric, b: Metric)
  {
    && a.classMult == b.classMult && a.edgeMult == b.edgeMult
    && forall k :: IsClosed(a, k) <==> IsClosed(b, k)
  }

  /** Metrics of the same meaning re-weight every graph alike. */
  lemma SameMeaningSameWeights(a: Metric, b: Metric, edges: seq<Edge>)
    requires SameMeaning(a, b)
    ensures Weights(edges, a) == Weights(edges, b)
  {
    forall i | 0 <= i < |edges|
      ensures EdgeTime(a, edges[i]) == EdgeTime(b, edges[i])
    {
    }
  }

  /** The receiver holds nothing that the encoded metric fails to replace. */
  ghost predicate NothingStale(r: Metric, m: Metric)
  {
    && (m.edgeMult != map[] || r.edgeMult == map[])
    && ((exists k :: IsClosed(m, k)) || !exists k :: IsClosed(r, k))
  }

  /** Decoding an encoded metric restores its meaning exactly when nothing stale survives in the receiver. */
  lemma CodecPreservesMeaning(r: Metric, m: Metric, w: WireMetric, d: Metric)
    requires Int64Keys(m) && Encodes(m, w) && Decodes(r, w, d)
    ensures SameMeaning(m, d) <==> NothingStale(r, m)
  {
    hide EkStr, EkParse, Encodes, Decodes;
    EdgeTableSurvives(r, m, w, d);
    ClosedTableSurvives(r, m, w, d);
    ClassTableSurvives(r, m, w, d);
    assert m.edgeMult == d.edgeMult <==> (m.edgeMult != map[] || r.edgeMult == map[]);
    if !exists k :: IsClosed(m, k) {
      assert forall k :: IsClosed(d, k) <==> IsClosed(r, k);
    }
  }

  lemma ClassTableSurvives(r: Metric, m: Metric, w: WireMetric, d: Metric)
    requires Encodes(m, w) && Decodes(r, w, d)
    ensures d.classMult == m.classMult
  {
  }

  lemma EdgeTableSurvives(r: Metric, m: Metric, w: WireMetric, d: Metric)
    requires Int64Keys(m) && Encodes(m, w) && Decodes(r, w, d)
    ensures d.edgeMult == if m.edgeMult == map[] then r.edgeMult else m.edgeMult
  {
    hide EkStr, EkParse, Encodes, Decodes, Int64Keys;
    TableSizes(r, m, w, d);
    if m.edgeMult != map[] {
      forall k
        ensures k in d.edgeMult <==> k in m.edgeMult
        ensures k in d.edgeMult ==> d.edgeMult[k] == m.edgeMult[k]
      {
        EntrySurvives(r, m, w, d, k);
      }
    }
  }

  lemma TableSizes(r: Metric, m: Metric, w: WireMetric, d: Metric)
    requires Encodes(m, w) && Decodes(r, w, d)
    ensures if m.edgeMult == map[] then d.edgeMult == r.edgeMult else |w.edgeMult| > 0
  {
    hide EkStr, EkParse;
    if m.edgeMult == map[] {
      assert w.edgeMult == map[];
    } else {
      var some := Member(m.edgeMult.Keys);
      assert EkStr(some) in w.edgeMult;
    }
  }

  lemma EntrySurvives(r: Metric, m: Metric, w: WireMetric, d: Metric, k: EdgeKey)
    requires Int64Keys(m) && Encodes(m, w) && Decodes(r, w, d) && |w.edgeMult| > 0
    ensures k in d.edgeMult <==> k in m.edgeMult
    ensures k in d.edgeMult ==> d.edgeMult[k] == m.edgeMult[k]
  {
    hide EkStr, EkParse;
    if k in m.edgeMult {
      ParseUndoesFormat(k);
      assert EkStr(k) in w.edgeMult && EkParse(EkStr(k)) == Some(k);
    }
    if k in d.edgeMult {
      var s :| s in w.edgeMult && EkParse(s) == Some(k) && w.edgeMult[s] == d.edgeMult[k];
      var j :| j in m.edgeMult && s == EkStr(j);
      ParseUndoesFormat(j);
    }
  }

  lemma ClosedTableSurvives(r: Metric, m: Metric, w: WireMetric, d: Metric)
    requires Int64Keys(m) && Encodes(m, w) && Decodes(r, w, d)
    ensures if exists k :: IsClosed(m, k) then forall k :: IsClosed(d, k) <==> IsClosed(m, k) else d.closed == r.closed
  {
    hide EkStr, EkParse;
    if some :| IsClosed(m, some) {
      assert EkStr(some) in w.closed;
      forall k
        ensures IsClosed(d, k) <==> IsClosed(m, k)
      {
        if IsClosed(m, k) {
          ParseUndoesFormat(k);
          assert EkStr(k) in w.closed;
        }
        if IsClosed(d, k) {
          var s :| s in w.closed && EkParse(s) == Some(k);
          var j :| IsClosed(m, j) && s == EkStr(j);
          ParseUndoesFormat(j);
        }
      }
    } else {
      if w.closed != [] {
        assert w.closed[0] in w.closed;
      }
    }
  }

  // ---------------------------------------------------------------- the effect on weights

  /** What a metric does to an edge with the given key and class: stop it, or divide its time by a multiplier. */
  function Effect(m: Metric, k: EdgeKey, c: RoadClass): Option<real>
  {
    var x := if k in m.edgeMult then m.edgeMult[k] else if c in m.classMult then m.classMult[c] else 1.0;
    if IsClosed(m, k) || x <= 0.0 then None else Some(x)
  }

  /** Ten metres at 36 km/h take one second, so an open edge of this kind shows its multiplier. */
  function Probe(k: EdgeKey, c: RoadClass): Edge { Edge(k.from, k.to, 10.0, c, 36.0, "") }

  lemma ProbeShowsEffect(m: Metric, k: EdgeKey, c: RoadClass)
    ensures EdgeTime(m, Probe(k, c)) == match Effect(m, k, c) { case None => Closed case Some(x) => Fin(1.0 / x) }
  {
    assert 10.0 / (36.0 / 3.6) == 1.0;
  }

  lemma InverseIsInjective(x: real, y: real)
    requires 0.0 < x && 0.0 < y && 1.0 / x == 1.0 / y
    ensures x == y
  {
    var u := 1.0 / x;
    assert u * x == 1.0 && u * y == 1.0;
    assert x == (u * y) * x && y == (u * x) * y;
  }

  ghost predicate SameWeights(a: Metric, b: Metric)
  {
    forall edges: seq<Edge> :: Weights(edges, a) == Weights(edges, b)
  }

  ghost predicate SameEffect(a: Metric, b: Metric)
  {
    forall k: EdgeKey, c: RoadClass :: Effect(a, k, c) == Effect(b, k, c)
  }

  /** Two metrics re-weight every graph alike exactly when they have the same effect on every key and class. */
  lemma SameWeightsIff(a: Metric, b: Metric)
    ensures SameWeights(a, b) <==> SameEffect(a, b)
  {
    hide Effect, EdgeTime;
    if SameWeights(a, b) {
      forall k: EdgeKey, c: RoadClass
        ensures Effect(a, k, c) == Effect(b, k, c)
      {
        assert Weights([Probe(k, c)], a)[0] == Weights([Probe(k, c)], b)[0];
        ProbeShowsEffect(a, k, c);
        ProbeShowsEffect(b, k, c);
        EffectsArePositive(a, k, c);
        EffectsArePositive(b, k, c);
        if Effect(a, k, c).Some? && Effect(b, k, c).Some? {
          InverseIsInjective(Effect(a, k, c).value, Effect(b, k, c).value);
        }
      }
    }
    if SameEffect(a, b) {
      forall edges: seq<Edge>
        ensures Weights(edges, a) == Weights(edges, b)
      {
        forall i | 0 <= i < |edges|
          ensures EdgeTime(a, edges[i]) == EdgeTime(b, edges[i])
        {
          EffectDecides(a, b, edges[i]);
        }
      }
    }
  }

  lemma EffectsArePositive(m: Metric, k: EdgeKey, c: RoadClass)
    ensures Effect(m, k, c).Some? ==> 0.0 < Effect(m, k, c).value
  {
  }

  lemma EffectDecides(a: Metric, b: Metric, e: Edge)
    requires Effect(a, KeyOf(e), e.roadClass) == Effect(b, KeyOf(e), e.roadClass)
    ensures EdgeTime(a, e) == EdgeTime(b, e)
  {
  }

  /** What a receiver and an encoded metric together leave on a key: the receiver's multipliers count when the
    metric has none, and the receiver's closures when the metric closes nothing.
    */
  ghost function LeftEffect(r: Metric, m: Metric, k: EdgeKey, c: RoadClass): Option<real>
  {
    var stale := if exists j :: IsClosed(m, j) then m.closed else r.closed;
    Effect(Metric(m.classMult, if m.edgeMult == map[] then r.edgeMult else m.edgeMult, stale), k, c)
  }

  /** Decoding restores the weights of every graph exactly when, key by key and class by class, nothing the receiver
    keeps changes what the metric does.
    */
  lemma CodecPreservesWeightsIff(r: Metric, m: Metric, w: WireMetric, d: Metric)
    requires Int64Keys(m) && Encodes(m, w) && Decodes(r, w, d)
    ensures SameWeights(d, m) <==> forall k: EdgeKey, c: RoadClass :: LeftEffect(r, m, k, c) == Effect(m, k, c)
  {
    hide EkStr, EkParse, Encodes, Decodes;
    SameWeightsIff(d, m);
    EdgeTableSurvives(r, m, w, d);
    ClosedTableSurvives(r, m, w, d);
    ClassTableSurvives(r, m, w, d);
    forall k: EdgeKey, c: RoadClass
      ensures LeftEffect(r, m, k, c) == Effect(d, k, c)
    {
    }
  }

  /** A stale multiplier does no harm on an edge the metric closes. */
  lemma StaleMayBeHarmless(k: EdgeKey, w: WireMetric, d: Metric)
    requires Int64Key(k)
    requires Encodes(Metric(map[], map[], map[k := true]), w)
    requires Decodes(Metric(map[], map[k := 2.0], map[]), w, d)
    ensures SameWeights(d, Metric(map[], map[], map[k := true]))
    ensures !NothingStale(Metric(map[], map[k := 2.0], map[]), Metric(map[], map[], map[k := true]))
  {
    hide EkStr, EkParse, Encodes, Decodes, SameWeights;
    var r, m := Metric(map[], map[k := 2.0], map[]), Metric(map[], map[], map[k := true]);
    assert IsClosed(m, k) && k in r.edgeMult;
    CodecPreservesWeightsIff(r, m, w, d);
  }

  /** Into a fresh receiver the round trip always preserves the weights of every graph. */
  lemma FreshRoundTrip(m: Metric, w: WireMetric, d: Metric, edges: seq<Edge>)
    requires Int64Keys(m) && Encodes(m, w) && Decodes(FREE_FLOW, w, d)
    ensures Weights(edges, d) == Weights(edges, m)
  {
    hide Encodes, Decodes, EdgeTime;
    CodecPreservesMeaning(FREE_FLOW, m, w, d);
    SameMeaningSameWeights(d, m, edges);
  }

  const ROAD := Edge(1, 2, 100.0, ClassPrimary, 36.0, "")

  lemma RoadTime(d: Metric)
    ensures EdgeTime(FREE_FLOW, ROAD) == Fin(10.0)
    ensures IsClosed(d, EdgeKey(1, 2)) ==> EdgeTime(d, ROAD) == Closed
  {
    assert 100.0 / (36.0 / 3.6) == 10.0;
  }

  /** Decoding an all-clear metric into a receiver with a closure keeps that edge closed. */
  lemma StaleClosureSurvives(w: WireMetric, d: Metric)
    requires Encodes(FREE_FLOW, w) && Decodes(Metric(map[], map[], map[EdgeKey(1, 2) := true]), w, d)
    ensures EdgeTime(FREE_FLOW, ROAD) == Fin(10.0) && EdgeTime(d, ROAD) == Closed
  {
    hide EkStr, EkParse, Encodes, Decodes, EdgeTime;
    ClosedTableSurvives(Metric(map[], map[], map[EdgeKey(1, 2) := true]), FREE_FLOW, w, d);
    RoadTime(d);
  }
}
