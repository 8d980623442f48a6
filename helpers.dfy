/*
 * The utilities of 2/js/helpers.js that the editor's model code relies on:
 * _shiftArray (a rotation done with splice, which also empties part of its
 * argument), statArray (a histogram), _configureProperties (defaults copied
 * into a configuration object and onto the object being configured) and
 * _getBounds (the bounding box of a list of points, with the infinities it
 * starts from when the list is empty).
 */
module Helpers {

  // -------------------------------------------------------------------
  // _shiftArray

  /** A JavaScript array, which splice shortens in place. */
  class List<T> {
    var elems: seq<T>

    constructor (s: seq<T>)
      ensures elems == s
    {
      elems := s;
    }

    /**
     * splice(start): removes the elements from start to the end and
     * returns them; a negative start counts from the end.
     */
    method SpliceFrom(start: int) returns (removed: seq<T>)
      modifies this
      ensures removed == old(elems)[SpliceStart(|old(elems)|, start)..]
      ensures elems == old(elems)[..SpliceStart(|old(elems)|, start)]
    {
      var s := SpliceStart(|elems|, start);
      removed := elems[s..];
      elems := elems[..s];
    }
  }

  /** Where splice(start) starts on an array of length len. */
  function SpliceStart(len: nat, start: int): (s: nat)
    ensures s <= len
  {
    if start < 0 then (if len + start < 0 then 0 else len + start)
    else if start > len then len
    else start
  }

  /** The array _shiftArray(a, k) returns. */
  function Shifted<T>(a: seq<T>, k: int): seq<T>
  {
    var s := SpliceStart(|a|, -k);
    a[s..] + a[..s]
  }

  /**
   * _shiftArray(list, k): the last k elements moved to the front; the
   * argument is left holding only the elements that were not moved.
   */
  method ShiftArray<T>(list: List<T>, shiftIndex: int) returns (r: seq<T>)
    modifies list
    ensures r == Shifted(old(list.elems), shiftIndex)
    ensures list.elems == old(list.elems)[..SpliceStart(|old(list.elems)|, -shiftIndex)]
  {
    var moveThisAround := list.SpliceFrom(-shiftIndex);
    r := moveThisAround + list.elems;
  }

  /** For 0 < k <= |a|: the last k elements, then the first |a| - k, each in order. */
  lemma ShiftedRotates<T>(a: seq<T>, k: int)
    requires 0 < k <= |a|
    ensures Shifted(a, k) == a[|a| - k..] + a[..|a| - k]
    ensures forall i :: 0 <= i < |a| ==> Shifted(a, k)[i] == if i < k then a[|a| - k + i] else a[i - k]
  {
  }

  /** With k = 0, or k at least the length, everything is moved and the order kept. */
  lemma ShiftedWhole<T>(a: seq<T>, k: int)
    requires k == 0 || k >= |a|
    ensures Shifted(a, k) == a && SpliceStart(|a|, -k) == 0
  {
  }

  /** A negative k moves the first -k elements to the back instead. */
  lemma ShiftedLeft<T>(a: seq<T>, k: int)
    requires k < 0 && -k <= |a|
    ensures Shifted(a, k) == a[-k..] + a[..-k]
  {
  }

  /** The result is a rearrangement of the argument. */
  lemma ShiftedPermutes<T>(a: seq<T>, k: int)
    ensures |Shifted(a, k)| == |a| && multiset(Shifted(a, k)) == multiset(a)
  {
    var s := SpliceStart(|a|, -k);
    assert a == a[..s] + a[s..];
  }

  /** Shifting by k and then by |a| - k gives the original back. */
  lemma ShiftedInverse<T>(a: seq<T>, k: int)
    requires 0 < k < |a|
    ensures Shifted(Shifted(a, k), |a| - k) == a
  {
    var b := Shifted(a, k);
    ShiftedRotates(a, k);
    ShiftedRotates(b, |a| - k);
    assert b[k..] == a[..|a| - k];
    assert b[..k] == a[|a| - k..];
  }

  /** The documented call: [1,2,3,4,5] shifted by 2 is [4,5,1,2,3], not the [3,4,5,1,2] the comment shows. */
  lemma ShiftExample()
    ensures Shifted([1, 2, 3, 4, 5], 2) == [4, 5, 1, 2, 3]
    ensures Shifted([1, 2, 3, 4, 5], 2) != [3, 4, 5, 1, 2]
  {
    assert SpliceStart(5, -2) == 3;
    assert [1, 2, 3, 4, 5][3..] == [4, 5];
    assert [1, 2, 3, 4, 5][..3] == [1, 2, 3];
  }

  // -------------------------------------------------------------------
  // statArray

  /** Each distinct element of arr and how often it occurs. */
  ghost function Counts<T>(arr: seq<T>): map<T, nat>
  {
    map e | e in multiset(arr) :: multiset(arr)[e]
  }

  /** statArray(arr): the counts, filled by one pass over arr. */
  method StatArray<T(==)>(arr: seq<T>) returns (stat: map<T, nat>)
    ensures stat == Counts(arr)
  {
    stat := map[];
    var i := 0;
    while i < |arr|
      invariant i <= |arr|
      invariant stat == Counts(arr[..i])
    {
      var e := arr[i];
      assert arr[..i + 1] == arr[..i] + [e];
      if e in stat {
        stat := stat[e := stat[e] + 1];
      } else {
        stat := stat[e := 1];
      }
      CountsSnoc(arr[..i], e);
      i := i + 1;
    }
    assert arr[..i] == arr;
  }

  /** One more element adds one to its own count and changes no other. */
  lemma CountsSnoc<T>(s: seq<T>, e: T)
    ensures Counts(s + [e]) == Counts(s)[e := if e in Counts(s) then Counts(s)[e] + 1 else 1]
  {
    assert multiset(s + [e]) == multiset(s) + multiset{e};
  }

  /** The distinct elements of s, in the order they first occur (the order of the keys statArray inserts). */
  function Firsts<T(==)>(s: seq<T>): seq<T>
  {
    if s == [] then []
    else
      var t := Firsts(s[..|s| - 1]);
      if s[|s| - 1] in s[..|s| - 1] then t else t + [s[|s| - 1]]
  }

  /** Firsts lists every element of s once. */
  lemma {:induction false} FirstsDistinct<T>(s: seq<T>)
    ensures forall e :: e in Firsts(s) <==> e in s
    ensures forall i, j :: 0 <= i < j < |Firsts(s)| ==> Firsts(s)[i] != Firsts(s)[j]
  {
    if s != [] {
      var p := s[..|s| - 1];
      FirstsDistinct(p);
      assert s == p + [s[|s| - 1]];
    }
  }

  /** The sum of m's values at the keys ks. */
  function SumAt<T>(m: map<T, nat>, ks: seq<T>): nat
    requires forall k :: k in ks ==> k in m
  {
    if ks == [] then 0 else SumAt(m, ks[..|ks| - 1]) + m[ks[|ks| - 1]]
  }

  /** The counts statArray returns add up to the length of its argument. */
  lemma {:induction false} CountsSum<T>(arr: seq<T>)
    ensures forall k :: k in Firsts(arr) ==> k in Counts(arr)
    ensures SumAt(Counts(arr), Firsts(arr)) == |arr|
  {
    if arr != [] {
      var p, e := arr[..|arr| - 1], arr[|arr| - 1];
      assert arr == p + [e];
      CountsSum(p);
      CountsSumStep(p, e);
    }
  }

  lemma CountsSumStep<T>(p: seq<T>, e: T)
    requires forall k :: k in Firsts(p) ==> k in Counts(p)
    requires SumAt(Counts(p), Firsts(p)) == |p|
    ensures forall k :: k in Firsts(p + [e]) ==> k in Counts(p + [e])
    ensures SumAt(Counts(p + [e]), Firsts(p + [e])) == |p| + 1
  {
    var m, ks := Counts(p), Firsts(p);
    CountsSnoc(p, e);
    FirstsSnoc(p, e);
    FirstsDistinct(p);
    FirstsDistinct(p + [e]);
    CountsKeys(p);
    CountsKeys(p + [e]);
    if e in p {
      SumAtBump(m, ks, e);
    } else {
      SumAtOther(m, ks, e, 1);
    }
  }

  lemma CountsKeys<T>(s: seq<T>)
    ensures forall k :: k in Counts(s) <==> k in s
  {
  }

  lemma FirstsSnoc<T>(p: seq<T>, e: T)
    ensures Firsts(p + [e]) == if e in p then Firsts(p) else Firsts(p) + [e]
  {
    var arr := p + [e];
    assert arr[..|arr| - 1] == p && arr[|arr| - 1] == e;
  }

  /** Raising the value at a key listed once raises the sum by one. */
  lemma {:induction false} SumAtBump<T>(m: map<T, nat>, ks: seq<T>, e: T)
    requires forall k :: k in ks ==> k in m
    requires forall i, j :: 0 <= i < j < |ks| ==> ks[i] != ks[j]
    requires e in ks
    ensures SumAt(m[e := m[e] + 1], ks) == SumAt(m, ks) + 1
  {
    var p := ks[..|ks| - 1];
    if ks[|ks| - 1] == e {
      assert e !in p by {
        forall i | 0 <= i < |p| ensures p[i] != e { assert ks[i] != ks[|ks| - 1]; }
      }
      SumAtOther(m, p, e, m[e] + 1);
    } else {
      assert e in p by { var i :| 0 <= i < |ks| && ks[i] == e; assert p[i] == e; }
      SumAtBump(m, p, e);
    }
  }

  /** A value at a key not listed leaves the sum alone. */
  lemma {:induction false} SumAtOther<T>(m: map<T, nat>, ks: seq<T>, e: T, v: nat)
    requires forall k :: k in ks ==> k in m
    requires e !in ks
    ensures SumAt(m[e := v], ks) == SumAt(m, ks)
    ensures SumAt(m[e := v], ks + [e]) == SumAt(m, ks) + v
  {
    if ks != [] {
      SumAtOther(m, ks[..|ks| - 1], e, v);
    }
    assert (ks + [e])[..|ks|] == ks;
  }

  // -------------------------------------------------------------------
  // _configureProperties

  /** A property value: undefined, or some value of type V. */
  datatype Value<V> = Undefined | Defined(v: V)

  /** A default: a value, or a function whose call yields the value. */
  datatype Default<V> = Plain(value: Value<V>) | Call(result: Value<V>)

  /** A JavaScript object, as its own properties. */
  class Obj<V> {
    var fields: map<string, Value<V>>

    constructor (fields0: map<string, Value<V>>)
      ensures fields == fields0
    {
      fields := fields0;
    }
  }

  /** obj[k]: undefined for a missing key. */
  function Lookup<V>(m: map<string, Value<V>>, k: string): Value<V>
  {
    if k in m then m[k] else Undefined
  }

  /** The value a default stands for, calling it when it is a function. */
  function Resolve<V>(d: Default<V>): Value<V>
  {
    match d
    case Plain(v) => v
    case Call(r) => r
  }

  /** The own enumerable properties of an object, in for-in order. */
  type Props<V> = seq<(string, Default<V>)>

  /** No key is listed twice, as in an object. */
  predicate DistinctKeys<V>(props: Props<V>)
  {
    forall i, j :: 0 <= i < j < |props| ==> props[i].0 != props[j].0
  }

  /** The value config holds at the key k once k has been given the default d. */
  function Chosen<V>(config: map<string, Value<V>>, k: string, d: Default<V>): Value<V>
  {
    if Lookup(config, k).Undefined? then Resolve(d) else config[k]
  }

  /** The properties of the configuration object and of the object configured. */
  datatype Configuration<V> = Configuration(config: map<string, Value<V>>, self: map<string, Value<V>>)

  /** Both objects after the first n properties have been handled. */
  function ConfiguredUpTo<V>(start: Configuration<V>, props: Props<V>, n: nat): Configuration<V>
    requires n <= |props|
  {
    if n == 0 then start
    else
      var prev := ConfiguredUpTo(start, props, n - 1);
      var k := props[n - 1].0;
      var config := prev.config[k := Chosen(prev.config, k, props[n - 1].1)];
      Configuration(config, prev.self[k := config[k]])
  }

  /**
   * _configureProperties(self, config, properties): for each own key of
   * properties, a config value that is undefined is replaced by the
   * default (called when it is a function), and the config value is
   * copied onto self.
   */
  method ConfigureProperties<V>(self: Obj<V>, config: Obj<V>, properties: Props<V>)
    requires self != config
    modifies self, config
    ensures Configuration(config.fields, self.fields) ==
              ConfiguredUpTo(Configuration(old(config.fields), old(self.fields)), properties, |properties|)
  {
    ghost var start := Configuration(config.fields, self.fields);
    for i := 0 to |properties|
      invariant Configuration(config.fields, self.fields) == ConfiguredUpTo(start, properties, i)
    {
      ConfigureKey(self, config, properties[i].0, properties[i].1);
    }
  }

  /** The loop body of _configureProperties, for the key propName and its default. */
  method ConfigureKey<V>(self: Obj<V>, config: Obj<V>, propName: string, default: Default<V>)
    requires self != config
    modifies self, config
    ensures config.fields == old(config.fields)[propName := Chosen(old(config.fields), propName, default)]
    ensures self.fields == old(self.fields)[propName := config.fields[propName]]
  {
    if propName !in config.fields || config.fields[propName].Undefined? {
      var value := Resolve(default);
      config.fields := config.fields[propName := value];
    }
    self.fields := self.fields[propName := config.fields[propName]];
  }

  /**
   * After the call every key of properties is present in config, with its
   * old value when that was defined and with the default otherwise; self
   * holds the same value at those keys, and at no other key does either
   * object change.
   */
  lemma ConfiguredRules<V>(start: Configuration<V>, props: Props<V>)
    requires DistinctKeys(props)
    ensures var r := ConfiguredUpTo(start, props, |props|);
            forall i :: 0 <= i < |props| ==>
              props[i].0 in r.config && props[i].0 in r.self && r.self[props[i].0] == r.config[props[i].0] &&
              r.config[props[i].0] == Chosen(start.config, props[i].0, props[i].1)
    ensures var r := ConfiguredUpTo(start, props, |props|);
            forall k :: (forall i :: 0 <= i < |props| ==> props[i].0 != k) ==>
              Lookup(r.config, k) == Lookup(start.config, k) && Lookup(r.self, k) == Lookup(start.self, k)
  {
    var r := ConfiguredUpTo(start, props, |props|);
    forall i | 0 <= i < |props|
      ensures props[i].0 in r.config && props[i].0 in r.self && r.self[props[i].0] == r.config[props[i].0]
      ensures r.config[props[i].0] == Chosen(start.config, props[i].0, props[i].1)
    {
      ConfiguredAt(start, props, |props|, i);
    }
    forall k | forall i :: 0 <= i < |props| ==> props[i].0 != k
      ensures Lookup(r.config, k) == Lookup(start.config, k) && Lookup(r.self, k) == Lookup(start.self, k)
    {
      ConfiguredOthers(start, props, |props|, k);
    }
  }

  /** The keys not yet handled are untouched. */
  lemma {:induction false} ConfiguredOthers<V>(start: Configuration<V>, props: Props<V>, n: nat, k: string)
    requires n <= |props| && forall i :: 0 <= i < n ==> props[i].0 != k
    ensures Lookup(ConfiguredUpTo(start, props, n).config, k) == Lookup(start.config, k)
    ensures Lookup(ConfiguredUpTo(start, props, n).self, k) == Lookup(start.self, k)
  {
    if n > 0 {
      ConfiguredOthers(start, props, n - 1, k);
    }
  }

  /** A handled key holds its chosen value, in config and in self. */
  lemma {:induction false} ConfiguredAt<V>(start: Configuration<V>, props: Props<V>, n: nat, i: nat)
    requires DistinctKeys(props) && i < n <= |props|
    ensures var r, k := ConfiguredUpTo(start, props, n), props[i].0;
            k in r.config && k in r.self && r.self[k] == r.config[k] && r.config[k] == Chosen(start.config, k, props[i].1)
  {
    if i == n - 1 {
      ConfiguredOthers(start, props, n - 1, props[i].0);
    } else {
      ConfiguredAt(start, props, n - 1, i);
      assert props[i].0 != props[n - 1].0;
    }
  }

  /** Handling properties whose values are already defined and copied changes nothing. */
  lemma {:induction false} ConfiguredFixed<V>(start: Configuration<V>, props: Props<V>, n: nat)
    requires n <= |props|
    requires forall i :: 0 <= i < n ==>
               props[i].0 in start.config && start.config[props[i].0].Defined? &&
               props[i].0 in start.self && start.self[props[i].0] == start.config[props[i].0]
    ensures ConfiguredUpTo(start, props, n) == start
  {
    if n > 0 {
      ConfiguredFixed(start, props, n - 1);
      var k := props[n - 1].0;
      assert start.config[k := start.config[k]] == start.config;
      assert start.self[k := start.config[k]] == start.self;
    }
  }

  /** A second call with the same properties changes neither object, unless a default is itself undefined. */
  lemma ConfigureIdempotent<V>(start: Configuration<V>, props: Props<V>)
    requires DistinctKeys(props)
    requires forall i :: 0 <= i < |props| ==> Resolve(props[i].1).Defined?
    ensures var r := ConfiguredUpTo(start, props, |props|);
            ConfiguredUpTo(r, props, |props|) == r
  {
    ConfiguredRules(start, props);
    ConfiguredFixed(ConfiguredUpTo(start, props, |props|), props, |props|);
  }

  // -------------------------------------------------------------------
  // _getBounds

  /** A JavaScript number the bounds can hold: a finite value, an infinity, or NaN. */
  datatype Num = NegInf | Fin(r: real) | PosInf | NaN

  /** a < b on numbers; false whenever NaN is involved. */
  predicate Less(a: Num, b: Num)
  {
    match a
    case NegInf => b.Fin? || b.PosInf?
    case Fin(x) => b.PosInf? || (b.Fin? && x < b.r)
    case PosInf => false
    case NaN => false
  }

  /** a - b on numbers. */
  function Minus(a: Num, b: Num): Num
  {
    match (a, b)
    case (Fin(x), Fin(y)) => Fin(x - y)
    case (NaN, _) => NaN
    case (_, NaN) => NaN
    case (PosInf, PosInf) => NaN
    case (NegInf, NegInf) => NaN
    case (PosInf, _) => PosInf
    case (NegInf, _) => NegInf
    case (Fin(_), PosInf) => NegInf
    case (Fin(_), NegInf) => PosInf
  }

  /** A point [x, y], finite coordinates. */
  datatype Point = Point(x: real, y: real)

  /** point[0] or point[1]. */
  function Coord(p: Point, axis: bool): real
  {
    if axis then p.y else p.x
  }

  datatype Bounds = Bounds(left: Num, right: Num, top: Num, bottom: Num, width: Num, height: Num)

  /** v is the least coordinate of the points on the axis (+Infinity for none). */
  ghost predicate Least(v: Num, points: seq<Point>, axis: bool)
  {
    if points == [] then v == PosInf
    else
      v.Fin? && (forall i :: 0 <= i < |points| ==> v.r <= Coord(points[i], axis)) &&
      (exists i :: 0 <= i < |points| && Coord(points[i], axis) == v.r)
  }

  /** v is the greatest coordinate of the points on the axis (-Infinity for none). */
  ghost predicate Greatest(v: Num, points: seq<Point>, axis: bool)
  {
    if points == [] then v == NegInf
    else
      v.Fin? && (forall i :: 0 <= i < |points| ==> Coord(points[i], axis) <= v.r) &&
      (exists i :: 0 <= i < |points| && Coord(points[i], axis) == v.r)
  }

  /** The four bounds of the points' box. */
  ghost predicate Box(points: seq<Point>, left: Num, right: Num, top: Num, bottom: Num)
  {
    Least(left, points, false) && Greatest(right, points, false) &&
    Least(top, points, true) && Greatest(bottom, points, true)
  }

  /** One more point: a bound moves only if the point lies beyond it. */
  lemma BoxStep(points: seq<Point>, p: Point, left: Num, right: Num, top: Num, bottom: Num)
    requires Box(points, left, right, top, bottom)
    ensures Box(points + [p],
                if Less(Fin(p.x), left) then Fin(p.x) else left,
                if Less(right, Fin(p.x)) then Fin(p.x) else right,
                if Less(Fin(p.y), top) then Fin(p.y) else top,
                if Less(bottom, Fin(p.y)) then Fin(p.y) else bottom)
  {
    LeastStep(points, p, left, false);
    GreatestStep(points, p, right, false);
    LeastStep(points, p, top, true);
    GreatestStep(points, p, bottom, true);
  }

  lemma LeastStep(points: seq<Point>, p: Point, v: Num, axis: bool)
    requires Least(v, points, axis)
    ensures Least(if Less(Fin(Coord(p, axis)), v) then Fin(Coord(p, axis)) else v, points + [p], axis)
  {
    var q := points + [p];
    assert q[|points|] == p;
    if points != [] {
      var a :| 0 <= a < |points| && Coord(points[a], axis) == v.r;
      assert q[a] == points[a];
    }
  }

  lemma GreatestStep(points: seq<Point>, p: Point, v: Num, axis: bool)
    requires Greatest(v, points, axis)
    ensures Greatest(if Less(v, Fin(Coord(p, axis))) then Fin(Coord(p, axis)) else v, points + [p], axis)
  {
    var q := points + [p];
    assert q[|points|] == p;
    if points != [] {
      var a :| 0 <= a < |points| && Coord(points[a], axis) == v.r;
      assert q[a] == points[a];
    }
  }

  /**
   * _getBounds(points): the least and greatest x (left, right) and y (top,
   * bottom), each attained by a point, with width and height their
   * differences; with no points the bounds stay at the infinities they
   * start from.
   */
  method GetBounds(points: seq<Point>) returns (b: Bounds)
    ensures Box(points, b.left, b.right, b.top, b.bottom)
    ensures b.width == Minus(b.right, b.left) && b.height == Minus(b.bottom, b.top)
  {
    var left, top, right, bottom := PosInf, PosInf, NegInf, NegInf;
    var i := 0;
    while i < |points|
      invariant i <= |points|
      invariant Box(points[..i], left, right, top, bottom)
    {
      var point := points[i];
      BoxStep(points[..i], point, left, right, top, bottom);
      assert points[..i + 1] == points[..i] + [point];
      if Less(Fin(point.x), left) { left := Fin(point.x); }
      if Less(right, Fin(point.x)) { right := Fin(point.x); }
      if Less(Fin(point.y), top) { top := Fin(point.y); }
      if Less(bottom, Fin(point.y)) { bottom := Fin(point.y); }
      i := i + 1;
    }
    assert points[..i] == points;
    b := Bounds(left, right, top, bottom, Minus(right, left), Minus(bottom, top));
  }

  /** For no points: +Infinity left/top, -Infinity right/bottom, and -Infinity width and height. */
  lemma EmptyBounds(left: Num, right: Num, top: Num, bottom: Num)
    requires Box([], left, right, top, bottom)
    ensures left == PosInf && top == PosInf && right == NegInf && bottom == NegInf
    ensures Minus(right, left) == NegInf && Minus(bottom, top) == NegInf
  {
  }

  /** For some points the box is finite and its width and height are not negative. */
  lemma BoundsOrdered(points: seq<Point>, left: Num, right: Num, top: Num, bottom: Num)
    requires points != [] && Box(points, left, right, top, bottom)
    ensures Minus(right, left).Fin? && Minus(right, left).r >= 0.0
    ensures Minus(bottom, top).Fin? && Minus(bottom, top).r >= 0.0
  {
    assert left.r <= Coord(points[0], false) <= right.r;
    assert top.r <= Coord(points[0], true) <= bottom.r;
  }
}
