/** The upload widget (frontend/components/uploader.tsx): the picked files,
    and a progress map from file name to percentage that is reset when an
    upload starts and updated by each progress event. The XHR transport is
    left out: progress events arrive as calls of `OnProgress`. */
module Uploader {
  import opened Wrap
  import opened Dedup

  /** A picked file; only its name is used. */
  datatype PickedFile = PickedFile(name: string)

  /** A stored progress value: `Math.round(100 * loaded / total)`, which is a
      whole number, or NaN (0 / 0) or Infinity (n / 0, n > 0) when a
      computable length is 0. */
  datatype Percent = Whole(n: int) | NaN | Infinity

  /** The names of the picked files, without repeats. */
  function NameSet(files: seq<PickedFile>): set<string>
  {
    set f | f in files :: f.name
  }

  function Names(files: seq<PickedFile>): seq<string>
  {
    seq(|files|, i requires 0 <= i < |files| => files[i].name)
  }

  /** `Math.round(x)` is `floor(x + 1/2)`; for `x = 100 * loaded / total` that
      is `floor((200 * loaded + total) / (2 * total))`. */
  function RoundPercent(loaded: nat, total: nat): Percent
  {
    if total > 0 then Whole((200 * loaded + total) / (2 * total))
    else if loaded == 0 then NaN
    else Infinity
  }

  /** `progress[file.name] || 0`: a missing entry, and NaN, show as 0. */
  function Shown(progress: map<string, Percent>, name: string): (p: Percent)
    ensures !p.NaN?
    ensures name in progress && !progress[name].NaN? ==> p == progress[name]
    ensures name !in progress || progress[name].NaN? ==> p == Whole(0)
  {
    if name !in progress then Whole(0)
    else match progress[name]
      case NaN => Whole(0)
      case other => other
  }

  /** Every stored value is a percentage between 0 and 100. */
  predicate Bounded(progress: map<string, Percent>)
  {
    forall k :: k in progress ==> progress[k].Whole? && 0 <= progress[k].n <= 100
  }

  /** The rounded percentage of a length that is at most the total lies in
      0..100; it is 0 at the start and 100 at the end. */
  lemma RoundPercentBounds(loaded: nat, total: nat)
    requires 0 < total && loaded <= total
    ensures RoundPercent(loaded, total).Whole?
    ensures 0 <= RoundPercent(loaded, total).n <= 100
    ensures loaded == 0 ==> RoundPercent(loaded, total).n == 0
    ensures loaded == total ==> RoundPercent(loaded, total).n == 100
  {
    var num, den := 200 * loaded + total, 2 * total;
    DivBelow(num, den, 101);
    DivBelow(total, den, 1);
    DivAtLeast(201 * total, den, 100);
  }

  lemma MulMono(a: int, b: int, c: nat)
    ensures a <= b ==> a * c <= b * c
  {
    if a <= b {
      assert b * c == a * c + (b - a) * c;
    }
  }

  lemma DivBelow(num: nat, den: nat, bound: nat)
    requires 0 < den && num < bound * den
    ensures num / den < bound
  {
    var q := num / den;
    assert q * den <= num;
    MulMono(bound, q, den);
  }

  lemma DivAtLeast(num: nat, den: nat, q: nat)
    requires 0 < den && q * den <= num
    ensures q <= num / den
  {
    var k := num / den;
    assert num < (k + 1) * den;
    MulMono(k + 1, q, den);
  }

  /** A longer transferred length never shows a smaller percentage. */
  lemma RoundPercentMonotone(loaded: nat, loaded': nat, total: nat)
    requires 0 < total && loaded <= loaded'
    ensures RoundPercent(loaded, total).n <= RoundPercent(loaded', total).n
  {
    var den := 2 * total;
    var a, b := 200 * loaded + total, 200 * loaded' + total;
    var k := a / den;
    assert k * den <= a;
    DivAtLeast(b, den, k);
  }

  /** Files that share a name share one progress entry: there are as many
      entries as distinct names, at most one per file, and exactly one per
      file only when no name repeats. */
  lemma NameSetSize(files: seq<PickedFile>)
    ensures |NameSet(files)| <= |files|
    ensures |NameSet(files)| == |files| <==> NoDuplicates(Names(files))
  {
    var ns := Names(files);
    assert NameSet(files) == set x | x in ns by {
      forall f | f in files ensures f.name in ns {
        var i :| 0 <= i < |files| && files[i] == f;
        assert ns[i] == f.name;
      }
    }
    ElementCount(ns);
  }

  /** The `forEach` of `uploadFiles` that builds `uploadProgress`. */
  method InitialProgress(files: seq<PickedFile>) returns (uploadProgress: map<string, Percent>)
    ensures uploadProgress.Keys == NameSet(files)
    ensures forall k :: k in uploadProgress ==> uploadProgress[k] == Whole(0)
  {
    uploadProgress := map[];
    var i := 0;
    while i < |files|
      invariant 0 <= i <= |files|
      invariant uploadProgress.Keys == NameSet(files[..i])
      invariant forall k :: k in uploadProgress ==> uploadProgress[k] == Whole(0)
    {
      assert files[..i + 1] == files[..i] + [files[i]];
      uploadProgress := uploadProgress[files[i].name := Whole(0)];
      i := i + 1;
    }
    assert files[..i] == files;
  }

  /** The component's state. */
  class FileUpload {
    var files: seq<PickedFile>
    var progress: map<string, Percent>

    constructor ()
      ensures files == [] && progress == map[]
    {
      files := [];
      progress := map[];
    }

    /** `handleFileChange`: a given file list, even an empty one, replaces
        the selection; without one nothing changes. */
    method HandleFileChange(picked: Option<seq<PickedFile>>)
      modifies this
      ensures files == if picked.Some? then picked.value else old(files)
      ensures progress == old(progress)
    {
      if picked.Some? {
        files := picked.value;
      }
    }

    /** The synchronous part of `uploadFiles`: progress restarts at 0 for
        exactly the selected names, and earlier entries are dropped. */
    method UploadFiles()
      modifies this
      ensures files == old(files)
      ensures progress.Keys == NameSet(files)
      ensures forall k :: k in progress ==> progress[k] == Whole(0)
      ensures Bounded(progress)
    {
      var uploadProgress := InitialProgress(files);
      progress := uploadProgress;
    }

    /** `xhr.upload.onprogress` for the file called `name`: only that entry
        changes, and only when the length is computable. */
    method OnProgress(name: string, lengthComputable: bool, loaded: nat, total: nat)
      modifies this
      ensures files == old(files)
      ensures progress == if lengthComputable then old(progress)[name := RoundPercent(loaded, total)] else old(progress)
      ensures forall k :: k != name ==> (k in progress <==> k in old(progress))
      ensures forall k :: k != name && k in progress ==> progress[k] == old(progress)[k]
      ensures Bounded(old(progress)) && 0 < total && loaded <= total ==> Bounded(progress)
    {
      if lengthComputable {
        progress := progress[name := RoundPercent(loaded, total)];
        if 0 < total && loaded <= total {
          RoundPercentBounds(loaded, total);
        }
      }
    }
  }

  /** While every event reports at most its total, each file shows a
      percentage between 0 and 100. */
  lemma ShownInRange(progress: map<string, Percent>, name: string)
    requires Bounded(progress)
    ensures Shown(progress, name).Whole? && 0 <= Shown(progress, name).n <= 100
  {
  }
}
