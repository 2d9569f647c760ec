/** `SpeechDataset`: the preprocessed outputs paired by position with the file names. */
module DatasetLoader {
  import opened Base

  /** The two stored lists, kept as given (neither is copied or changed). */
  datatype SpeechDataset<D> = SpeechDataset(data: seq<D>, filenames: seq<string>)

  /** `__len__`: the number of preprocessed entries; the name list plays no part. */
  function Len<D>(ds: SpeechDataset<D>): nat {
    |ds.data|
  }

  /** Python list indexing: `-n <= i < n` is valid and negative indices count from the end. */
  function PyIndex(i: int, n: nat): Option<nat> {
    if 0 <= i < n then Some(i) else if -(n as int) <= i < 0 then Some(i + n) else None
  }

  /** `__getitem__(i)`: `(data[i], filenames[i])`, or `None` for the IndexError either list
      raises. */
  function GetItem<D>(ds: SpeechDataset<D>, i: int): (r: Option<(D, string)>)
    ensures r.Some? <==> -|ds.data| <= i < |ds.data| && -|ds.filenames| <= i < |ds.filenames|
    ensures r.Some? && i >= 0 ==> r.value == (ds.data[i], ds.filenames[i])
    ensures r.Some? && i < 0 ==> r.value == (ds.data[|ds.data| + i], ds.filenames[|ds.filenames| + i])
  {
    match (PyIndex(i, |ds.data|), PyIndex(i, |ds.filenames|))
    case (Some(a), Some(b)) => Some((ds.data[a], ds.filenames[b]))
    case _ => None
  }

  /** The aligned pairs: position `i` of both lists, as far as the shorter one reaches. */
  function Pairs<D>(ds: SpeechDataset<D>): seq<(D, string)> {
    var n := Min(|ds.data|, |ds.filenames|);
    seq(n, i requires 0 <= i < n => (ds.data[i], ds.filenames[i]))
  }

  /** `for x in dataset`: the sequence protocol calls `__getitem__(0)`, `__getitem__(1)`, ...
      until the first IndexError. It yields exactly the aligned pairs, which number `__len__`
      only when there are at least as many names as entries. */
  method Iterate<D>(ds: SpeechDataset<D>) returns (pairs: seq<(D, string)>)
    ensures |pairs| == Min(|ds.data|, |ds.filenames|)
    ensures forall i :: 0 <= i < |pairs| ==> pairs[i] == (ds.data[i], ds.filenames[i])
    ensures |pairs| == Len(ds) <==> |ds.filenames| >= |ds.data|
  {
    pairs := [];
    var i := 0;
    var item := GetItem(ds, 0);
    while item.Some?
      invariant 0 <= i <= Min(|ds.data|, |ds.filenames|)
      invariant |pairs| == i
      invariant forall j :: 0 <= j < i ==> pairs[j] == (ds.data[j], ds.filenames[j])
      invariant item == GetItem(ds, i)
      decreases |ds.data| - i
    {
      pairs := pairs + [item.value];
      i := i + 1;
      item := GetItem(ds, i);
    }
  }

  /** The iteration agrees with the reference pairing. */
  lemma PairsAligned<D>(ds: SpeechDataset<D>)
    ensures |Pairs(ds)| == Min(|ds.data|, |ds.filenames|)
    ensures forall i :: 0 <= i < |Pairs(ds)| ==> GetItem(ds, i) == Some(Pairs(ds)[i])
    ensures GetItem(ds, |Pairs(ds)|).None?
  {
  }
}
