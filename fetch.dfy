/** The list shaping inside `fetch_images_from_db` (latex.py:46-58): the
    records the image service returned are ordered by page number, records
    without image data are dropped, and a data-URL header is cut off. */
module Fetch {
  import opened Wrappers

  /** One JSON record of the image service; a field the record lacks is `None`. */
  datatype ImageRecord = ImageRecord(pageNumber: Option<int>, imageData: Option<string>)

  const DataUrlPrefix: string := "data:image"

  /** The message of the `IndexError` raised when a data URL has no comma. */
  const NoCommaMessage: string := "list index out of range"

  /** The sort key: a missing page number counts as 0. */
  function PageKey(r: ImageRecord): int {
    if r.pageNumber.Some? then r.pageNumber.value else 0
  }

  predicate SortedByPage(rs: seq<ImageRecord>) {
    forall i, j :: 0 <= i < j < |rs| ==> PageKey(rs[i]) <= PageKey(rs[j])
  }

  /** The records whose sort key is `k`, in their order in `rs`. */
  function WithKey(rs: seq<ImageRecord>, k: int): seq<ImageRecord>
    decreases |rs|
  {
    if rs == [] then []
    else WithKey(rs[..|rs| - 1], k) + (if PageKey(rs[|rs| - 1]) == k then [rs[|rs| - 1]] else [])
  }

  lemma {:induction false} WithKeyAppend(a: seq<ImageRecord>, b: seq<ImageRecord>, k: int)
    ensures WithKey(a + b, k) == WithKey(a, k) + WithKey(b, k)
    decreases |b|
  {
    if b == [] {
      assert a + b == a;
    } else {
      var n := |b|;
      assert (a + b)[..|a + b| - 1] == a + b[..n - 1];
      WithKeyAppend(a, b[..n - 1], k);
    }
  }

  /** Puts `x` after every record of `rs` whose key is not larger, so that
      records with equal keys keep their order. */
  function Insert(rs: seq<ImageRecord>, x: ImageRecord): (r: seq<ImageRecord>)
    ensures multiset(r) == multiset(rs) + multiset{x}
    decreases |rs|
  {
    if rs == [] then [x]
    else if PageKey(rs[|rs| - 1]) <= PageKey(x) then rs + [x]
    else
      assert rs == rs[..|rs| - 1] + [rs[|rs| - 1]];
      Insert(rs[..|rs| - 1], x) + [rs[|rs| - 1]]
  }

  /** Python's `sorted(data, key=...)`, a stable sort by page number. */
  function SortByPage(rs: seq<ImageRecord>): (r: seq<ImageRecord>)
    ensures multiset(r) == multiset(rs)
    decreases |rs|
  {
    if rs == [] then []
    else
      assert rs == rs[..|rs| - 1] + [rs[|rs| - 1]];
      Insert(SortByPage(rs[..|rs| - 1]), rs[|rs| - 1])
  }

  /** No key in `rs` is larger than `b`. */
  predicate KeysAtMost(rs: seq<ImageRecord>, b: int) {
    forall i :: 0 <= i < |rs| ==> PageKey(rs[i]) <= b
  }

  lemma {:induction false} InsertBounded(rs: seq<ImageRecord>, x: ImageRecord, b: int)
    requires KeysAtMost(rs, b) && PageKey(x) <= b
    ensures KeysAtMost(Insert(rs, x), b)
    decreases |rs|
  {
    if rs != [] && PageKey(rs[|rs| - 1]) > PageKey(x) {
      InsertBounded(rs[..|rs| - 1], x, b);
    }
  }

  lemma {:induction false} InsertSorted(rs: seq<ImageRecord>, x: ImageRecord)
    requires SortedByPage(rs)
    ensures SortedByPage(Insert(rs, x))
    decreases |rs|
  {
    if rs != [] && PageKey(rs[|rs| - 1]) > PageKey(x) {
      var init := rs[..|rs| - 1];
      var last := rs[|rs| - 1];
      InsertSorted(init, x);
      InsertBounded(init, x, PageKey(last));
      var r := Insert(init, x);
      assert Insert(rs, x) == r + [last];
    }
  }

  /** The records of `[r]` with key `k`. */
  lemma WithKeySingle(r: ImageRecord, k: int)
    ensures WithKey([r], k) == if PageKey(r) == k then [r] else []
  {
    assert [r][..0] == [];
  }

  /** Among records with equal keys, the one inserted comes last. */
  lemma {:induction false} InsertKeepsOrder(rs: seq<ImageRecord>, x: ImageRecord, k: int)
    requires SortedByPage(rs)
    ensures WithKey(Insert(rs, x), k) == WithKey(rs, k) + (if PageKey(x) == k then [x] else [])
    decreases |rs|
  {
    WithKeySingle(x, k);
    if rs == [] {
      assert [x] == [] + [x];
      WithKeyAppend([], [x], k);
    } else if PageKey(rs[|rs| - 1]) <= PageKey(x) {
      WithKeyAppend(rs, [x], k);
    } else {
      var init := rs[..|rs| - 1];
      InsertKeepsOrder(init, x, k);
      InsertBehindLast(rs, x, k);
    }
  }

  /** The step of the above where `x` goes in before the last record. */
  lemma InsertBehindLast(rs: seq<ImageRecord>, x: ImageRecord, k: int)
    requires rs != [] && PageKey(rs[|rs| - 1]) > PageKey(x)
    requires WithKey(Insert(rs[..|rs| - 1], x), k) ==
      WithKey(rs[..|rs| - 1], k) + (if PageKey(x) == k then [x] else [])
    ensures WithKey(Insert(rs, x), k) == WithKey(rs, k) + (if PageKey(x) == k then [x] else [])
  {
    var init := rs[..|rs| - 1];
    var last := rs[|rs| - 1];
    var ins := Insert(init, x);
    var before := WithKey(init, k);
    assert Insert(rs, x) == ins + [last];
    WithKeyAppend(ins, [last], k);
    WithKeySingle(last, k);
    if PageKey(x) == k {
      assert WithKey(rs, k) == before;
      assert WithKey(Insert(rs, x), k) == WithKey(ins, k) == before + [x];
    } else {
      assert WithKey(ins, k) == before;
      assert WithKey(Insert(rs, x), k) == before + WithKey([last], k) == WithKey(rs, k);
    }
  }

  /** The sorted list is ordered by page number. */
  lemma {:induction false} SortByPageSorted(rs: seq<ImageRecord>)
    ensures SortedByPage(SortByPage(rs))
    decreases |rs|
  {
    if rs != [] {
      SortByPageSorted(rs[..|rs| - 1]);
      InsertSorted(SortByPage(rs[..|rs| - 1]), rs[|rs| - 1]);
    }
  }

  /** The sort is stable: the records sharing a page number keep their order. */
  lemma {:induction false} SortByPageStable(rs: seq<ImageRecord>, k: int)
    ensures WithKey(SortByPage(rs), k) == WithKey(rs, k)
    decreases |rs|
  {
    if rs != [] {
      var init := rs[..|rs| - 1];
      SortByPageStable(init, k);
      SortByPageSorted(init);
      InsertKeepsOrder(SortByPage(init), rs[|rs| - 1], k);
    }
  }

  /** The value the loop keeps: present and not the empty string. */
  predicate HasImageData(r: ImageRecord) {
    r.imageData.Some? && r.imageData.value != []
  }

  /** The image data of the records that have some, in order. */
  function KeptData(rs: seq<ImageRecord>): (r: seq<string>)
    ensures |r| <= |rs|
    ensures forall d :: d in r ==> d != []
    decreases |rs|
  {
    if rs == [] then []
    else
      var last := rs[|rs| - 1];
      KeptData(rs[..|rs| - 1]) + (if HasImageData(last) then [last.imageData.value] else [])
  }

  /** How many records have image data. */
  function DataCount(rs: seq<ImageRecord>): (n: nat)
    ensures n <= |rs|
    decreases |rs|
  {
    if rs == [] then 0 else DataCount(rs[..|rs| - 1]) + (if HasImageData(rs[|rs| - 1]) then 1 else 0)
  }

  /** Exactly the records with data give a value, in their order: the data
      of record `i` sits after one value for each earlier record with data. */
  lemma {:induction false} KeptDataExact(rs: seq<ImageRecord>)
    ensures |KeptData(rs)| == DataCount(rs)
    ensures forall i :: 0 <= i < |rs| && HasImageData(rs[i]) ==>
      DataCount(rs[..i]) < |KeptData(rs)| && KeptData(rs)[DataCount(rs[..i])] == rs[i].imageData.value
    decreases |rs|
  {
    if rs != [] {
      var n := |rs|;
      var init := rs[..n - 1];
      KeptDataExact(init);
      forall i | 0 <= i < n && HasImageData(rs[i])
        ensures DataCount(rs[..i]) < |KeptData(rs)| && KeptData(rs)[DataCount(rs[..i])] == rs[i].imageData.value
      {
        if i < n - 1 {
          assert rs[..i] == init[..i];
          assert init[i] == rs[i];
        } else {
          assert rs[..i] == init;
        }
      }
    }
  }

  /** Where `c` first occurs in `s`. */
  function FirstIndexOf(s: string, c: char): (r: Option<nat>)
    ensures r.Some? ==> r.value < |s| && s[r.value] == c && c !in s[..r.value]
    ensures r.None? ==> c !in s
    decreases |s|
  {
    if s == [] then None
    else if s[0] == c then Some(0)
    else
      var rest := FirstIndexOf(s[1..], c);
      if rest.Some? then
        assert s[..rest.value + 1] == [s[0]] + s[1..][..rest.value];
        Some(rest.value + 1)
      else None
  }

  /** `value.split(',', 1)[1]` for a data URL, the value itself otherwise. */
  function StripDataPrefix(d: string): (r: Result<string, string>)
    ensures r.Err? <==> |DataUrlPrefix| <= |d| && d[..|DataUrlPrefix|] == DataUrlPrefix && ',' !in d
    ensures r.Err? ==> r.error == NoCommaMessage
    ensures r.Ok? && |DataUrlPrefix| <= |d| && d[..|DataUrlPrefix|] == DataUrlPrefix ==>
      exists i :: 0 <= i < |d| && d[i] == ',' && ',' !in d[..i] && r.value == d[i + 1..]
    ensures !(|DataUrlPrefix| <= |d| && d[..|DataUrlPrefix|] == DataUrlPrefix) ==> r == Ok(d)
  {
    if |DataUrlPrefix| <= |d| && d[..|DataUrlPrefix|] == DataUrlPrefix then
      var comma := FirstIndexOf(d, ',');
      if comma.Some? then Ok(d[comma.value + 1..]) else Err(NoCommaMessage)
    else Ok(d)
  }

  /** A data URL gives back exactly the payload after its header. */
  lemma DataUrlRoundTrip(header: string, payload: string)
    requires |DataUrlPrefix| <= |header| && header[..|DataUrlPrefix|] == DataUrlPrefix
    requires ',' !in header
    ensures StripDataPrefix(header + "," + payload) == Ok(payload)
  {
    var d := header + "," + payload;
    assert d[..|DataUrlPrefix|] == header[..|DataUrlPrefix|];
    assert d[|header|] == ',';
    assert d[..|header|] == header;
    var c := FirstIndexOf(d, ',');
    assert c.Some?;
    assert forall j | 0 <= j < |header| :: d[j] == header[j];
    assert forall j | 0 <= j < c.value :: d[..c.value][j] == d[j];
    assert c.value == |header|;
    assert d[|header| + 1..] == payload;
  }

  /** The loop's result on a list of already kept values: the stripped values
      in order, or the error of the first data URL without a comma. */
  function StripAll(ds: seq<string>): (r: Result<seq<string>, string>)
    decreases |ds|
  {
    if ds == [] then Ok([])
    else
      var init := StripAll(ds[..|ds| - 1]);
      var last := StripDataPrefix(ds[|ds| - 1]);
      if init.Err? then init
      else if last.Err? then Err(last.error)
      else Ok(init.value + [last.value])
  }

  /** The loop fails exactly when one kept value is a data URL without a
      comma, and otherwise strips each value in place. */
  lemma {:induction false} StripAllSpec(ds: seq<string>)
    ensures StripAll(ds).Ok? <==> forall i :: 0 <= i < |ds| ==> StripDataPrefix(ds[i]).Ok?
    ensures StripAll(ds).Err? ==> StripAll(ds).error == NoCommaMessage
    ensures StripAll(ds).Ok? ==>
      |StripAll(ds).value| == |ds| &&
      forall i :: 0 <= i < |ds| ==> StripAll(ds).value[i] == StripDataPrefix(ds[i]).value
    decreases |ds|
  {
    if ds != [] {
      var init := ds[..|ds| - 1];
      StripAllSpec(init);
      assert forall i :: 0 <= i < |init| ==> init[i] == ds[i];
    }
  }

  /** What `fetch_images_from_db` returns for the records the service sent. */
  function ShapedImages(data: seq<ImageRecord>): Result<seq<string>, string> {
    StripAll(KeptData(SortByPage(data)))
  }

  /** One more record extends the kept values by its data, if it has any. */
  lemma KeptDataStep(rs: seq<ImageRecord>, i: nat)
    requires i < |rs|
    ensures KeptData(rs[..i + 1]) ==
      KeptData(rs[..i]) + (if HasImageData(rs[i]) then [rs[i].imageData.value] else [])
  {
    assert rs[..i + 1][..i] == rs[..i];
  }

  /** One more value extends a successful result by its stripped form, and a
      failed result stays as it is. */
  lemma StripAllStep(ds: seq<string>, d: string)
    ensures StripAll(ds + [d]) ==
      if StripAll(ds).Err? then StripAll(ds)
      else if StripDataPrefix(d).Err? then Err(StripDataPrefix(d).error)
      else Ok(StripAll(ds).value + [StripDataPrefix(d).value])
  {
    assert (ds + [d])[..|ds|] == ds;
  }

  /** The loop over the sorted records, returning early on the first data URL
      without a comma, as the `IndexError` does. */
  method ShapeImages(data: seq<ImageRecord>) returns (r: Result<seq<string>, string>)
    ensures r == ShapedImages(data)
  {
    if data == [] {
      return Ok([]);
    }
    var images := SortByPage(data);
    var list: seq<string> := [];
    var i := 0;
    while i < |images|
      invariant 0 <= i <= |images|
      invariant StripAll(KeptData(images[..i])) == Ok(list)
    {
      var img := images[i];
      KeptDataStep(images, i);
      if img.imageData.Some? && img.imageData.value != [] {
        var imageData := img.imageData.value;
        StripAllStep(KeptData(images[..i]), imageData);
        var stripped := StripDataPrefix(imageData);
        if stripped.Err? {
          StripAllFailsFrom(images, i + 1);
          return Err(stripped.error);
        }
        list := list + [stripped.value];
      } else {
        assert KeptData(images[..i + 1]) == KeptData(images[..i]);
      }
      i := i + 1;
    }
    assert images[..i] == images;
    r := Ok(list);
  }

  /** Once the kept values of a prefix fail, the whole list fails the same way. */
  lemma {:induction false} StripAllFailsFrom(rs: seq<ImageRecord>, n: nat)
    requires n <= |rs| && StripAll(KeptData(rs[..n])).Err?
    ensures StripAll(KeptData(rs)) == StripAll(KeptData(rs[..n]))
    decreases |rs| - n
  {
    if n < |rs| {
      KeptDataStep(rs, n);
      if HasImageData(rs[n]) {
        StripAllStep(KeptData(rs[..n]), rs[n].imageData.value);
      } else {
        assert KeptData(rs[..n + 1]) == KeptData(rs[..n]);
      }
      StripAllFailsFrom(rs, n + 1);
    } else {
      assert rs[..n] == rs;
    }
  }

  /** An empty answer gives an empty list. */
  lemma NoRecordsNoImages()
    ensures ShapedImages([]) == Ok([])
  {
  }

  /** Records are taken by page number, not in the order they arrived. */
  lemma OutOfOrderRecords(a: string, b: string)
    requires a != [] && b != []
    requires a[0] != 'd' && b[0] != 'd'
    ensures ShapedImages([ImageRecord(Some(2), Some(b)), ImageRecord(Some(1), Some(a))]) == Ok([a, b])
  {
    var x := ImageRecord(Some(2), Some(b));
    var y := ImageRecord(Some(1), Some(a));
    assert [x, y][..1] == [x];
    assert [x][..0] == [];
    assert SortByPage([x]) == [x];
    assert SortByPage([x, y]) == [y, x];
    assert [y, x][..1] == [y];
    assert KeptData([y, x]) == [a, b];
    assert [a, b][..1] == [a];
    assert [a][..0] == [];
    NotDataUrl(a);
    NotDataUrl(b);
    assert StripAll([a]) == Ok([a]);
    assert StripAll([a, b]) == Ok([a, b]);
  }

  /** A value not starting with `d` is kept as it is. */
  lemma NotDataUrl(a: string)
    requires a != [] && a[0] != 'd'
    ensures StripDataPrefix(a) == Ok(a)
  {
    if |DataUrlPrefix| <= |a| {
      assert a[..|DataUrlPrefix|][0] == a[0];
    }
  }
}
