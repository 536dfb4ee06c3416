/** `lunr.Set` and `lunr.FieldRef`. */
module LunrSets {

  /** The two special sets are compared by identity.  `length` counts what the constructor
      was given, so a union counts shared elements twice. */
  datatype LunrSet = Complete | Empty | Elements(keys: set<string>, length: nat) {

    predicate Contains(x: string) {
      match this
      case Complete => true
      case Empty => false
      case Elements(keys, _) => x in keys
    }

    function Intersect(other: LunrSet): LunrSet {
      match this
      case Complete => other
      case Empty => Empty
      case Elements(keys, length) =>
        match other
        case Complete => this
        case Empty => Empty
        case Elements(otherKeys, otherLength) =>
          var (fewer, more) := if length < otherLength then (keys, otherKeys) else (otherKeys, keys);
          var both := set x | x in fewer && x in more;
          Elements(both, |both|)
    }

    function Union(other: LunrSet): LunrSet {
      match this
      case Complete => Complete
      case Empty => other
      case Elements(keys, _) =>
        match other
        case Complete => Complete
        case Empty => this
        case Elements(otherKeys, _) => Elements(keys + otherKeys, |keys| + |otherKeys|)
    }
  }

  function FromKeys(keys: set<string>): LunrSet {
    Elements(keys, |keys|)
  }

  /** The special sets behave as the set of everything and the set of nothing. */
  lemma ContainsLaws(a: LunrSet, b: LunrSet, x: string)
    ensures a.Intersect(b).Contains(x) <==> a.Contains(x) && b.Contains(x)
    ensures a.Union(b).Contains(x) <==> a.Contains(x) || b.Contains(x)
  {
  }

  const JOINER: char := '/'

  datatype FieldRef = FieldRef(docRef: string, fieldName: string)

  function RefString(r: FieldRef): string {
    r.fieldName + [JOINER] + r.docRef
  }

  function Index(s: string): nat
    requires JOINER in s
    ensures Index(s) < |s| && s[Index(s)] == JOINER
  {
    if s[0] == JOINER then 0 else 1 + Index(s[1..])
  }

  /** `FieldRef.fromString`, for a string that has a joiner. */
  function RefFromString(s: string): FieldRef
    requires JOINER in s
  {
    FieldRef(s[Index(s) + 1..], s[..Index(s)])
  }

  lemma {:induction false} FirstJoiner(f: string, d: string)
    requires JOINER !in f
    ensures JOINER in f + [JOINER] + d && Index(f + [JOINER] + d) == |f|
    decreases |f|
  {
    var s := f + [JOINER] + d;
    assert s[|f|] == JOINER;
    if f != [] {
      assert s[1..] == f[1..] + [JOINER] + d;
      FirstJoiner(f[1..], d);
    }
  }

  /** A field name has no joiner, so a reference can be read back from its string even when
      the document's name has one. */
  lemma RefRoundTrip(r: FieldRef)
    requires JOINER !in r.fieldName
    ensures JOINER in RefString(r) && RefFromString(RefString(r)) == r
    ensures RefString(r) == r.fieldName + "/" + r.docRef
  {
    FirstJoiner(r.fieldName, r.docRef);
  }

  /** The key of a term and a field: with field names free of joiners, keys do not clash. */
  function TermFieldKey(term: string, field: string): string {
    term + [JOINER] + field
  }

  lemma TermFieldKeyInjective(t: string, f: string, t': string, f': string)
    requires JOINER !in f && JOINER !in f' && TermFieldKey(t, f) == TermFieldKey(t', f')
    ensures t == t' && f == f'
  {
    var k := TermFieldKey(t, f);
    assert k[|t|] == JOINER && k[|t'|] == JOINER;
    assert forall i :: |t| < i < |k| ==> k[i] == f[i - |t| - 1];
    assert forall i :: |t'| < i < |k| ==> k[i] == f'[i - |t'| - 1];
    assert |t| == |t'|;
    assert t == k[..|t|] == t' && f == k[|t| + 1..] == f';
  }
}
