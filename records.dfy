/** Candidate records as the lookup receives them from the search service, and the
    array operations the controller applies to them: `map(record => record.Id)`,
    `indexOf`, `find`, `flat()` and `sort` with the `sortAlpha` comparator. */
module Records {
  import opened Strings

  /** `None` stands for JavaScript's `undefined`. */
  datatype Option<T> = None | Some(value: T)

  /** An error object as stored in the component's `error` field; only its `message` is read. */
  datatype Error = Error(message: string)

  datatype Result<T> = Ok(value: T) | Err(error: Error)

  /** A `selected` custom event: its `detail` and whether it bubbles. */
  datatype SelectedEvent = SelectedEvent(detail: string, bubbles: bool)

  /** A candidate record decoded from the service's JSON: field name to field value.
      Every record the service returns carries its `Id`. */
  type Record = r: map<string, string> | "Id" in r witness map["Id" := ""]

  function Id(r: Record): string { r["Id"] }

  /** `record[name]`; `None` when the record has no such field. */
  function Field(r: Record, name: string): (v: Option<string>)
    ensures v.Some? <==> name in r
    ensures v.Some? ==> v.value == r[name]
    ensures name == "Id" ==> v == Some(Id(r))
  {
    if name in r then Some(r[name]) else None
  }

  /** `array[i]`: `None` (undefined) outside the array. */
  function At<T>(s: seq<T>, i: int): (v: Option<T>)
    ensures v.Some? <==> 0 <= i < |s|
    ensures v.Some? ==> v.value == s[i]
  {
    if 0 <= i < |s| then Some(s[i]) else None
  }

  /** `records.map(record => record.Id)` */
  function Ids(rs: seq<Record>): (ids: seq<string>)
    ensures |ids| == |rs|
    ensures forall i :: 0 <= i < |rs| ==> ids[i] == Id(rs[i])
  {
    if rs == [] then [] else [Id(rs[0])] + Ids(rs[1..])
  }

  /** `s.indexOf(x)`: the first position holding `x`, or -1. */
  function IndexOf(s: seq<string>, x: string): (i: int)
    ensures -1 <= i < |s|
    ensures i == -1 <==> x !in s
    ensures 0 <= i ==> s[i] == x && x !in s[..i]
  {
    if s == [] then -1
    else if s[0] == x then 0
    else
      var k := IndexOf(s[1..], x);
      assert s == [s[0]] + s[1..];
      if k == -1 then -1
      else
        assert s[..k + 1] == [s[0]] + s[1..][..k];
        k + 1
  }

  /** `records.find(record => record.Id === id)`: the first record with that Id. */
  function FindById(rs: seq<Record>, id: string): (r: Option<Record>)
    ensures r.None? <==> id !in Ids(rs)
    ensures r.Some? ==> r.value == rs[IndexOf(Ids(rs), id)]
  {
    if rs == [] then None
    else if Id(rs[0]) == id then Some(rs[0])
    else
      var r := FindById(rs[1..], id);
      assert Ids(rs) == [Id(rs[0])] + Ids(rs[1..]);
      r
  }

  /** `groups.flat()`: the groups' records, group after group. */
  function Flatten(groups: seq<seq<Record>>): (rs: seq<Record>)
    ensures forall r :: r in rs <==> exists g :: g in groups && r in g
  {
    if groups == [] then []
    else
      var rest := Flatten(groups[1..]);
      assert forall g :: g in groups <==> g == groups[0] || g in groups[1..];
      groups[0] + rest
  }

  /** `flat()` of two runs of groups is the first run flattened, then the second. */
  lemma {:induction false} FlattenAppend(a: seq<seq<Record>>, b: seq<seq<Record>>)
    ensures Flatten(a + b) == Flatten(a) + Flatten(b)
  {
    if a == [] {
      assert a + b == b;
    } else {
      assert (a + b)[0] == a[0] && (a + b)[1..] == a[1..] + b;
      FlattenAppend(a[1..], b);
    }
  }

  /** `flat()` keeps every group whole and in order: one more group appends its records,
      each as often as it occurs and in its own order. */
  lemma FlattenSnoc(groups: seq<seq<Record>>, g: seq<Record>)
    ensures Flatten(groups + [g]) == Flatten(groups) + g
    ensures multiset(Flatten(groups + [g])) == multiset(Flatten(groups)) + multiset(g)
  {
    FlattenAppend(groups, [g]);
    assert Flatten([g]) == g + Flatten([]);
  }

  /** The sort key of `sortAlpha`: the title field, lower-cased. */
  function Key(r: Record, title: string): string
    requires title in r
  {
    Lower(r[title])
  }

  /** `sortAlpha(a, b)`: -1, 0 or 1 as `a`'s lower-cased title is below, equal to or above `b`'s. */
  function SortAlpha(a: Record, b: Record, title: string): (c: int)
    requires title in a && title in b
    ensures c == -1 || c == 0 || c == 1
    ensures c < 0 <==> Below(Key(a, title), Key(b, title))
    ensures c == 0 <==> Key(a, title) == Key(b, title)
    ensures c > 0 <==> Below(Key(b, title), Key(a, title))
  {
    var aName, bName := Key(a, title), Key(b, title);
    BelowTotal(aName, bName);
    BelowAsymmetric(aName, bName);
    BelowIrreflexive(aName);
    if Below(aName, bName) then -1
    else if Below(bName, aName) then 1
    else 0
  }

  /** The comparator orders records consistently: "not after" is transitive. */
  lemma NotAfterTransitive(a: Record, b: Record, c: Record, title: string)
    requires title in a && title in b && title in c
    requires SortAlpha(a, b, title) <= 0 && SortAlpha(b, c, title) <= 0
    ensures SortAlpha(a, c, title) <= 0
  {
    var ka, kb, kc := Key(a, title), Key(b, title), Key(c, title);
    if Below(kc, ka) && ka != kb {
      BelowTransitive(kc, ka, kb);
    }
  }

  predicate AllTitled(rs: seq<Record>, title: string)
  {
    forall i :: 0 <= i < |rs| ==> title in rs[i]
  }

  /** Non-decreasing under `sortAlpha`. */
  predicate Sorted(rs: seq<Record>, title: string)
  {
    forall i, j :: 0 <= i < j < |rs| ==>
      title in rs[i] && title in rs[j] && SortAlpha(rs[i], rs[j], title) <= 0
  }

  /** The records whose lower-cased title is `k`, in order. */
  function KeyFilter(rs: seq<Record>, title: string, k: string): seq<Record>
  {
    if rs == [] then []
    else if title in rs[0] && Key(rs[0], title) == k then [rs[0]] + KeyFilter(rs[1..], title, k)
    else KeyFilter(rs[1..], title, k)
  }

  /** Inserts `x` before the first record that does not sort below it. */
  function Insert(x: Record, rs: seq<Record>, title: string): (r: seq<Record>)
    requires title in x && AllTitled(rs, title)
    ensures multiset(r) == multiset(rs) + multiset{x}
    ensures AllTitled(r, title)
  {
    if rs == [] then [x]
    else if SortAlpha(rs[0], x, title) < 0 then
      assert AllTitled(rs[1..], title);
      var rest := Insert(x, rs[1..], title);
      assert rs == [rs[0]] + rs[1..];
      [rs[0]] + rest
    else [x] + rs
  }

  /** A stable sort by `sortAlpha`, standing for `Array.prototype.sort`, which is stable. */
  function InsertionSort(rs: seq<Record>, title: string): (r: seq<Record>)
    requires AllTitled(rs, title)
    ensures multiset(r) == multiset(rs)
    ensures AllTitled(r, title)
  {
    if rs == [] then []
    else
      assert rs == [rs[0]] + rs[1..];
      Insert(rs[0], InsertionSort(rs[1..], title), title)
  }

  /** A record that sorts no later than every record of a sorted sequence can head it. */
  lemma SortedCons(x: Record, rs: seq<Record>, title: string)
    requires title in x && Sorted(rs, title)
    requires forall j :: 0 <= j < |rs| ==> title in rs[j] && SortAlpha(x, rs[j], title) <= 0
    ensures Sorted([x] + rs, title)
  {
    var r := [x] + rs;
    forall i, j | 0 <= i < j < |r|
      ensures title in r[i] && title in r[j] && SortAlpha(r[i], r[j], title) <= 0
    {
      assert r[j] == rs[j - 1];
      if i > 0 {
        assert r[i] == rs[i - 1];
      }
    }
  }

  /** Every record of `Insert(x, rs)` is `x` or a record of `rs`. */
  lemma InsertMember(x: Record, rs: seq<Record>, title: string, j: nat)
    requires title in x && AllTitled(rs, title)
    requires j < |Insert(x, rs, title)|
    ensures Insert(x, rs, title)[j] == x || exists k :: 0 <= k < |rs| && rs[k] == Insert(x, rs, title)[j]
  {
    var t := Insert(x, rs, title);
    assert t[j] in multiset(t);
    if t[j] != x {
      assert t[j] in multiset(rs);
      assert t[j] in rs;
    }
  }

  lemma {:induction false} InsertSorted(x: Record, rs: seq<Record>, title: string)
    requires title in x && AllTitled(rs, title) && Sorted(rs, title)
    ensures Sorted(Insert(x, rs, title), title)
  {
    if rs == [] {
    } else if SortAlpha(rs[0], x, title) < 0 {
      var t := Insert(x, rs[1..], title);
      assert Sorted(rs[1..], title);
      InsertSorted(x, rs[1..], title);
      forall j | 0 <= j < |t|
        ensures title in t[j] && SortAlpha(rs[0], t[j], title) <= 0
      {
        InsertMember(x, rs[1..], title, j);
      }
      SortedCons(rs[0], t, title);
      assert Insert(x, rs, title) == [rs[0]] + t;
    } else {
      forall j | 0 <= j < |rs|
        ensures title in rs[j] && SortAlpha(x, rs[j], title) <= 0
      {
        if j > 0 {
          NotAfterTransitive(x, rs[0], rs[j], title);
        }
      }
      SortedCons(x, rs, title);
    }
  }

  /** Records in strict `sortAlpha` order never share a key. */
  lemma BelowKeysDiffer(a: Record, b: Record, title: string, k: string)
    requires title in a && title in b && SortAlpha(a, b, title) < 0
    ensures !(Key(a, title) == k && Key(b, title) == k)
  {
    BelowIrreflexive(Key(b, title));
  }

  /** Inserting `x` adds it to its own key class, ahead of the records already there,
      and leaves every other key class as it was. */
  lemma {:induction false} InsertKeyFilter(x: Record, rs: seq<Record>, title: string, k: string)
    requires title in x && AllTitled(rs, title)
    ensures KeyFilter(Insert(x, rs, title), title, k)
         == if Key(x, title) == k then [x] + KeyFilter(rs, title, k) else KeyFilter(rs, title, k)
  {
    var r := Insert(x, rs, title);
    if rs == [] {
      assert r == [x] && r[1..] == [];
    } else if SortAlpha(rs[0], x, title) < 0 {
      var rest := Insert(x, rs[1..], title);
      InsertKeyFilter(x, rs[1..], title, k);
      assert r == [rs[0]] + rest && r[0] == rs[0] && r[1..] == rest;
      // `rs[0]` sorts strictly before `x`, so at most one of them has the key `k`.
      BelowKeysDiffer(rs[0], x, title, k);
    } else {
      assert r == [x] + rs && r[0] == x && r[1..] == rs;
    }
  }

  /** The insertion sort is sorted and stable: each key class keeps its input order. */
  lemma {:induction false} InsertionSortCorrect(rs: seq<Record>, title: string)
    requires AllTitled(rs, title)
    ensures Sorted(InsertionSort(rs, title), title)
    ensures forall k :: KeyFilter(InsertionSort(rs, title), title, k) == KeyFilter(rs, title, k)
  {
    if rs != [] {
      var t := InsertionSort(rs[1..], title);
      InsertionSortCorrect(rs[1..], title);
      InsertSorted(rs[0], t, title);
      forall k ensures KeyFilter(InsertionSort(rs, title), title, k) == KeyFilter(rs, title, k) {
        InsertKeyFilter(rs[0], t, title, k);
      }
    }
  }

  /** The error `sortAlpha` throws when it reads the title of a record that lacks one. */
  const TitleTypeError := Error("Cannot read properties of undefined (reading 'toLowerCase')")

  /** `rs.sort((a, b) => this.sortAlpha(a, b))`. With fewer than two records the comparator is
      never called and the array comes back as it was; otherwise every record is compared at
      least once, so a record without the title field makes `sortAlpha` throw. */
  function SortRecords(rs: seq<Record>, title: string): (r: Result<seq<Record>>)
    ensures r.Ok? <==> |rs| < 2 || AllTitled(rs, title)
    ensures r.Err? ==> r.error == TitleTypeError
    ensures r.Ok? ==> multiset(r.value) == multiset(rs) && Sorted(r.value, title)
    ensures r.Ok? ==> forall k :: KeyFilter(r.value, title, k) == KeyFilter(rs, title, k)
  {
    if |rs| < 2 then Ok(rs)
    else if AllTitled(rs, title) then
      InsertionSortCorrect(rs, title);
      Ok(InsertionSort(rs, title))
    else Err(TitleTypeError)
  }
}
