/**
 * The key/value parameter set of a job or properties file (class `Params`)
 * and the dependency encoder that appends and removes predecessor basenames
 * in its reserved `dependencies` entry.
 *
 * A parameter set is a sequence of entries with distinct keys; its order is
 * the model's iteration order (the original is a Python 2 dict, whose order is
 * unspecified).
 */
module Parameters {
  import opened Errors
  import opened Seqs

  /** An element of a list value, or a key of a dict value: a string, an
      integer, or any other Python value, carried as the text `str` gives
      it (a float, None, a tuple, ...). A value of another type never equals
      a string. */
  datatype Atom = AStr(s: string) | AInt(i: int) | AOther(text: string)

  /** A parameter value, classified by the Python type the renderer looks at. */
  datatype Value =
    | VStr(s: string)
    | VInt(i: int)
    | VList(items: seq<Atom>)
    | VDict(keys: seq<Atom>)      // only the keys of a dict value are ever read
    | VOther(typeName: string)    // float, None, tuple, ...

  datatype Entry = Entry(key: string, value: Value)

  datatype Params = Params(entries: seq<Entry>)

  const DependenciesKey: string := "dependencies"

  function KeysOf(es: seq<Entry>): (r: seq<string>)
    ensures |r| == |es|
    ensures forall i :: 0 <= i < |r| ==> r[i] == es[i].key
  {
    if |es| == 0 then [] else [es[0].key] + KeysOf(es[1..])
  }

  /** The keys, in iteration order. */
  function Keys(p: Params): seq<string> {
    KeysOf(p.entries)
  }

  /** A Python mapping never holds the same key twice. */
  predicate ValidParams(p: Params) {
    Distinct(Keys(p))
  }

  function EmptyParams(): (r: Params)
    ensures ValidParams(r) && Keys(r) == []
  {
    Params([])
  }

  function GetIn(es: seq<Entry>, k: string): Option<Value> {
    if |es| == 0 then None
    else if es[0].key == k then Some(es[0].value)
    else GetIn(es[1..], k)
  }

  /** The value stored under `k`, if any. */
  function Get(p: Params, k: string): (r: Option<Value>)
    ensures r.Some? <==> k in Keys(p)
    ensures forall i :: 0 <= i < |p.entries| && p.entries[i].key == k && k !in Keys(p)[..i] ==> r == Some(p.entries[i].value)
  {
    GetInSpec(p.entries, k);
    GetIn(p.entries, k)
  }

  lemma {:induction false} GetInSpec(es: seq<Entry>, k: string)
    ensures GetIn(es, k).Some? <==> k in Keys(Params(es))
    ensures forall i :: 0 <= i < |es| && es[i].key == k && k !in Keys(Params(es))[..i] ==> GetIn(es, k) == Some(es[i].value)
  {
    if |es| > 0 {
      GetInSpec(es[1..], k);
      forall i | 0 <= i < |es| && es[i].key == k && k !in Keys(Params(es))[..i]
        ensures GetIn(es, k) == Some(es[i].value)
      {
        if i > 0 {
          assert Keys(Params(es))[0] == es[0].key;
          assert Keys(Params(es[1..]))[..i - 1] == Keys(Params(es))[1..i];
        }
      }
    }
  }

  /** `Params.__len__`: the number of keys. */
  function Len(p: Params): (n: nat)
    ensures ValidParams(p) ==> n == |set k | k in Keys(p)|
  {
    if ValidParams(p) then DistinctCard(Keys(p)); |p.entries| else |p.entries|
  }

  /** `Params.__getitem__`: the stored value, or KeyError. */
  function GetItem(p: Params, k: string): (r: Result<Value>)
    ensures r.Failure? <==> k !in Keys(p)
    ensures r.Failure? ==> r.error == KeyError
    ensures forall i :: 0 <= i < |p.entries| && p.entries[i].key == k && ValidParams(p) ==> r == Success(p.entries[i].value)
  {
    OnlyOccurrence(p, k);
    match Get(p, k)
    case Some(v) => Success(v)
    case None => Failure(KeyError)
  }

  /** `Params.__contains__` as written: the membership test asks the same
      object again, so each call starts an identical call. `depth` is what is
      left of the interpreter's recursion limit; the call fails once it is
      used up. */
  function ContainsAsWritten(p: Params, k: string, depth: nat): (r: Result<bool>)
    ensures depth == 0 ==> r == Failure(RuntimeError)
    decreases depth
  {
    if depth == 0 then Failure(RuntimeError) else ContainsAsWritten(p, k, depth - 1)
  }

  /** Whatever the recursion limit, the membership test as written never
      answers: it always fails with RuntimeError. */
  lemma {:induction false} ContainsAsWrittenNeverAnswers(p: Params, k: string, depth: nat)
    ensures ContainsAsWritten(p, k, depth) == Failure(RuntimeError)
  {
    if depth > 0 {
      ContainsAsWrittenNeverAnswers(p, k, depth - 1);
    }
  }

  /** A command's own parameters hold `type`, yet asking whether they do
      fails under Python's default recursion limit of 1000. */
  lemma ContainsAsWrittenFailsOnPresentKey()
    ensures var p := Params([Entry("type", VStr("command"))]);
            && ContainsKey(p, "type")
            && ContainsAsWritten(p, "type", 1000).Failure?
  {
    var p := Params([Entry("type", VStr("command"))]);
    assert Keys(p)[0] == "type";
    ContainsAsWrittenNeverAnswers(p, "type", 1000);
  }

  /** `Params.__contains__` as evidently intended: membership among the keys
      of the wrapped dict, which is exactly when `__getitem__` succeeds. */
  function ContainsKey(p: Params, k: string): (r: bool)
    ensures r <==> Get(p, k).Some?
    ensures r <==> GetItem(p, k).Success?
  {
    k in Keys(p)
  }

  /** In a valid parameter set an entry with key `k` is its first one. */
  lemma OnlyOccurrence(p: Params, k: string)
    ensures ValidParams(p) ==> forall i :: 0 <= i < |p.entries| && p.entries[i].key == k ==> k !in Keys(p)[..i]
  {
    if ValidParams(p) {
      forall i | 0 <= i < |p.entries| && p.entries[i].key == k
        ensures k !in Keys(p)[..i]
      {
        var ks := Keys(p);
        assert forall j :: 0 <= j < i ==> ks[..i][j] == ks[j];
      }
    }
  }

  function UpdateIn(es: seq<Entry>, k: string, v: Value): seq<Entry> {
    if |es| == 0 then [Entry(k, v)]
    else if es[0].key == k then [Entry(k, v)] + es[1..]
    else [es[0]] + UpdateIn(es[1..], k, v)
  }

  /** `dict[k] = v` (and `dict.update({k: v})`): an existing key keeps its
      place and takes the new value; a new key is added at the end. */
  function Update(p: Params, k: string, v: Value): (r: Params)
    ensures Get(r, k) == Some(v)
    ensures forall k' :: k' != k ==> Get(r, k') == Get(p, k')
    ensures k in Keys(p) ==> Keys(r) == Keys(p)
    ensures k !in Keys(p) ==> Keys(r) == Keys(p) + [k]
    ensures ValidParams(p) ==> ValidParams(r)
  {
    UpdateInSpec(p.entries, k, v);
    Params(UpdateIn(p.entries, k, v))
  }

  lemma {:induction false} UpdateInSpec(es: seq<Entry>, k: string, v: Value)
    ensures GetIn(UpdateIn(es, k, v), k) == Some(v)
    ensures forall k' :: k' != k ==> GetIn(UpdateIn(es, k, v), k') == GetIn(es, k')
    ensures k in KeysOf(es) ==> KeysOf(UpdateIn(es, k, v)) == KeysOf(es)
    ensures k !in KeysOf(es) ==> KeysOf(UpdateIn(es, k, v)) == KeysOf(es) + [k]
    ensures Distinct(KeysOf(es)) ==> Distinct(KeysOf(UpdateIn(es, k, v)))
  {
    UpdateInKeys(es, k, v);
    UpdateInGet(es, k, v);
    if k !in KeysOf(es) && Distinct(KeysOf(es)) {
      DistinctSnoc(KeysOf(es), k);
    }
  }

  lemma {:induction false} UpdateInKeys(es: seq<Entry>, k: string, v: Value)
    ensures k in KeysOf(es) ==> KeysOf(UpdateIn(es, k, v)) == KeysOf(es)
    ensures k !in KeysOf(es) ==> KeysOf(UpdateIn(es, k, v)) == KeysOf(es) + [k]
  {
    if |es| > 0 && es[0].key != k {
      UpdateInKeys(es[1..], k, v);
    }
  }

  lemma {:induction false} UpdateInGet(es: seq<Entry>, k: string, v: Value)
    ensures GetIn(UpdateIn(es, k, v), k) == Some(v)
    ensures forall k' :: k' != k ==> GetIn(UpdateIn(es, k, v), k') == GetIn(es, k')
  {
    if |es| > 0 && es[0].key != k {
      UpdateInGet(es[1..], k, v);
    }
  }

  /** The position of the first occurrence of `x`. */
  function FirstIndex(xs: seq<Atom>, x: Atom): (i: nat)
    requires x in xs
    ensures i < |xs| && xs[i] == x && x !in xs[..i]
  {
    if xs[0] == x then 0
    else
      var j := FirstIndex(xs[1..], x);
      assert xs[..j + 1] == [xs[0]] + xs[1..][..j];
      j + 1
  }

  /** Removes the first occurrence of `x`, as Python's `list.remove`. */
  function RemoveFirst(xs: seq<Atom>, x: Atom): (r: seq<Atom>)
    ensures x !in xs ==> r == xs
    ensures x in xs ==> r == xs[..FirstIndex(xs, x)] + xs[FirstIndex(xs, x) + 1..]
  {
    if |xs| == 0 then []
    else if xs[0] == x then xs[1..]
    else
      var rest := RemoveFirst(xs[1..], x);
      if x in xs[1..] then
        var i := FirstIndex(xs[1..], x);
        assert FirstIndex(xs, x) == i + 1;
        assert xs[..i + 1] == [xs[0]] + xs[1..][..i];
        assert xs[i + 2..] == xs[1..][i + 1..];
        [xs[0]] + rest
      else
        assert xs == [xs[0]] + xs[1..];
        [xs[0]] + rest
  }

  /** Removing an element that occurs takes exactly one copy of it away. */
  lemma RemoveFirstMultiset(xs: seq<Atom>, x: Atom)
    requires x in xs
    ensures multiset(RemoveFirst(xs, x)) == multiset(xs) - multiset{x}
  {
    var i := FirstIndex(xs, x);
    assert xs == xs[..i] + [x] + xs[i + 1..];
  }

  /** The `dependencies` list as stored; empty when the key is absent. */
  function DepAtoms(p: Params): seq<Atom> {
    match Get(p, DependenciesKey)
    case Some(VList(xs)) => xs
    case _ => []
  }

  /** The `dependencies` entry is absent or holds a list. */
  predicate DepsShaped(p: Params) {
    Get(p, DependenciesKey).None? || Get(p, DependenciesKey).value.VList?
  }

  /** `Params._set_dependencies`: creates an empty `dependencies` list when the
      key is absent, then appends the predecessor's basename at its end. */
  function AddDependency(p: Params, basename: string): (r: Result<Params>)
    ensures r.Success? <==> DepsShaped(p)
    ensures r.Failure? ==> r.error == AttributeError
    ensures r.Success? ==> Get(r.value, DependenciesKey).Some? && DepsShaped(r.value)
    ensures r.Success? ==> DepAtoms(r.value) == DepAtoms(p) + [AStr(basename)]
    ensures r.Success? ==> forall k :: k != DependenciesKey ==> Get(r.value, k) == Get(p, k)
    ensures r.Success? && ValidParams(p) ==> ValidParams(r.value)
  {
    match Get(p, DependenciesKey)
    case None => Success(Update(p, DependenciesKey, VList([AStr(basename)])))
    case Some(VList(xs)) => Success(Update(p, DependenciesKey, VList(xs + [AStr(basename)])))
    case Some(_) => Failure(AttributeError)
  }

  /** `Params._remove_dependencies`: removes the first occurrence of the
      predecessor's basename; KeyError when there is no `dependencies` entry,
      ValueError when the basename is not in the list. The key stays, even
      when its list becomes empty. */
  function RemoveDependency(p: Params, basename: string): (r: Result<Params>)
    ensures Get(p, DependenciesKey).None? ==> r == Failure(KeyError)
    ensures DepsShaped(p) && Get(p, DependenciesKey).Some? && AStr(basename) !in DepAtoms(p) ==> r == Failure(ValueError)
    ensures !DepsShaped(p) ==> r == Failure(AttributeError)
    ensures r.Success? <==> Get(p, DependenciesKey).Some? && DepsShaped(p) && AStr(basename) in DepAtoms(p)
    ensures r.Success? ==> Get(r.value, DependenciesKey).Some? && DepsShaped(r.value)
    ensures r.Success? ==> DepAtoms(r.value) == RemoveFirst(DepAtoms(p), AStr(basename))
    ensures r.Success? ==> multiset(DepAtoms(r.value)) == multiset(DepAtoms(p)) - multiset{AStr(basename)}
    ensures r.Success? ==> forall k :: k != DependenciesKey ==> Get(r.value, k) == Get(p, k)
    ensures r.Success? && ValidParams(p) ==> ValidParams(r.value)
  {
    match Get(p, DependenciesKey)
    case None => Failure(KeyError)
    case Some(VList(xs)) =>
      if AStr(basename) in xs then
        RemoveFirstMultiset(xs, AStr(basename));
        Success(Update(p, DependenciesKey, VList(RemoveFirst(xs, AStr(basename)))))
      else Failure(ValueError)
    case Some(_) => Failure(AttributeError)
  }

  /** Attaching a predecessor and then detaching it leaves the dependency list
      the same as a multiset, and exactly the same when the basename was not
      already listed; the `dependencies` key remains afterwards. */
  lemma AttachThenDetach(p: Params, basename: string)
    requires DepsShaped(p)
    ensures AddDependency(p, basename).Success?
    ensures RemoveDependency(AddDependency(p, basename).value, basename).Success?
    ensures var q := RemoveDependency(AddDependency(p, basename).value, basename).value;
            && multiset(DepAtoms(q)) == multiset(DepAtoms(p))
            && (AStr(basename) !in DepAtoms(p) ==> DepAtoms(q) == DepAtoms(p))
            && Get(q, DependenciesKey).Some?
            && forall k :: k != DependenciesKey ==> Get(q, k) == Get(p, k)
  {
    var xs := DepAtoms(p);
    var q := RemoveDependency(AddDependency(p, basename).value, basename).value;
    assert AStr(basename) in xs + [AStr(basename)];
    assert multiset(xs + [AStr(basename)]) == multiset(xs) + multiset{AStr(basename)};
    if AStr(basename) !in xs {
      var ys := xs + [AStr(basename)];
      var i := FirstIndex(ys, AStr(basename));
      assert i == |xs|;
      assert ys[..i] == xs;
    }
  }
}
