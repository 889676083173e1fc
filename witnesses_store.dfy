/** The witnesses store (`witnesses.store.ts`): grouping a document's files
    into witnesses, and the list updates that select a file or switch a
    witness on or off. */
module WitnessesStore {
  import opened Wrappers
  import opened JsString
  import opened Dom
  import opened Files
  import opened StatsUtils
  import LabelUtils

  /** One witness: its folder, the file shown, whether it is shown, and its
      edit counts. */
  datatype Witness = Witness(folder: Folder, selectedFile: Option<FileData>, enabled: bool, metrics: WitnessStats)

  // ---------------------------------------------------------------------
  // Image files

  /** The MIME types counted as images. */
  const ImageTypes: seq<string> := ["image/png", "image/jpeg", "image/webp", "image/tiff", "image/avif"]

  /** `isImageFile`: the file's MIME type is one of the image types. */
  predicate IsImageFile(file: FileData) {
    file.fileType in ImageTypes
  }

  /** The image files of `files`, in their order. */
  function ImagesOf(files: seq<FileData>): (r: seq<FileData>)
    ensures |r| <= |files|
  {
    if files == [] then []
    else
      var rest := ImagesOf(files[1..]);
      if IsImageFile(files[0]) then [files[0]] + rest else rest
  }

  /** The filter keeps exactly the image files. */
  lemma {:induction false} ImagesOfMembers(files: seq<FileData>)
    ensures forall f :: f in ImagesOf(files) <==> f in files && IsImageFile(f)
  {
    if files != [] {
      ImagesOfMembers(files[1..]);
      assert forall f :: f in files <==> f == files[0] || f in files[1..];
    }
  }

  /** `getImageFiles(folder)`: `folder.files || []` filtered; None stands
      for a folder record whose `files` is missing. */
  function GetImageFiles(files: Option<seq<FileData>>): (r: seq<FileData>)
    ensures files.None? ==> r == []
    ensures files.Some? ==> forall f :: f in r <==> f in files.value && IsImageFile(f)
  {
    match files
    case None => []
    case Some(fs) => ImagesOfMembers(fs); ImagesOf(fs)
  }

  /** The filter keeps the order: filtering a concatenation filters each
      part. */
  lemma {:induction false} ImagesOfConcat(a: seq<FileData>, b: seq<FileData>)
    ensures ImagesOf(a + b) == ImagesOf(a) + ImagesOf(b)
  {
    if a == [] {
      assert a + b == b;
    } else {
      assert (a + b)[0] == a[0] && (a + b)[1..] == a[1..] + b;
      ImagesOfConcat(a[1..], b);
      var head := if IsImageFile(a[0]) then [a[0]] else [];
      assert ImagesOf(a + b) == head + (ImagesOf(a[1..]) + ImagesOf(b));
      assert ImagesOf(a) == head + ImagesOf(a[1..]);
      assert head + (ImagesOf(a[1..]) + ImagesOf(b)) == (head + ImagesOf(a[1..])) + ImagesOf(b);
    }
  }

  /** Filtering twice is filtering once. */
  lemma {:induction false} ImagesOfIdempotent(files: seq<FileData>)
    ensures ImagesOf(ImagesOf(files)) == ImagesOf(files)
  {
    if files != [] {
      ImagesOfIdempotent(files[1..]);
      var rest := ImagesOf(files[1..]);
      if IsImageFile(files[0]) {
        assert ([files[0]] + rest)[1..] == rest;
      }
    }
  }

  // ---------------------------------------------------------------------
  // Grouping

  /** The file lies inside a directory: its path contains a `/`. */
  predicate HasDir(file: FileData) {
    Contains(file.path, "/")
  }

  /** `path.split('/')[0]`: the part before the first `/`. */
  function DirName(path: string): (r: string)
    ensures '/' !in r
    ensures Contains(path, "/") ==> |r| < |path| && path[|r|] == '/' && path[..|r|] == r
  {
    match IndexOf(path, "/")
    case None =>
      forall j | 0 <= j < |path|
        ensures path[j] != '/'
      {
        assert !MatchesAt(path, "/", j);
        assert path[j..j + 1] == [path[j]];
      }
      path
    case Some(i) =>
      forall j | 0 <= j < i
        ensures path[j] != '/'
      {
        assert !MatchesAt(path, "/", j);
        assert path[j..j + 1] == [path[j]];
      }
      assert path[i..i + 1] == "/";
      path[..i]
  }

  /** The directory a grouped file belongs to. */
  function Dir(file: FileData): string {
    DirName(file.path)
  }

  /** The files of directory `d`, in their order. */
  function GroupOf(files: seq<FileData>, d: string): (r: seq<FileData>)
    ensures |r| <= |files|
  {
    if files == [] then []
    else
      var last := files[|files| - 1];
      GroupOf(files[..|files| - 1], d) + (if HasDir(last) && Dir(last) == d then [last] else [])
  }

  /** The directories of the files, each once, in the order first seen. */
  function DirsOf(files: seq<FileData>): (r: seq<string>)
    ensures |r| <= |files|
  {
    if files == [] then []
    else
      var last := files[|files| - 1];
      var ds := DirsOf(files[..|files| - 1]);
      if HasDir(last) && Dir(last) !in ds then ds + [Dir(last)] else ds
  }

  /** A group holds exactly the files of its directory. */
  lemma {:induction false} GroupOfMembers(files: seq<FileData>, d: string)
    ensures forall f :: f in GroupOf(files, d) <==> f in files && HasDir(f) && Dir(f) == d
  {
    if files != [] {
      var init := files[..|files| - 1];
      GroupOfMembers(init, d);
      assert files == init + [files[|files| - 1]];
    }
  }

  /** The directory list holds exactly the directories of the files. */
  lemma {:induction false} DirsOfMembers(files: seq<FileData>)
    ensures forall d :: d in DirsOf(files) <==> exists f | f in files :: HasDir(f) && Dir(f) == d
  {
    if files != [] {
      var init := files[..|files| - 1];
      DirsOfMembers(init);
      assert files == init + [files[|files| - 1]];
    }
  }

  /** The grouping loop: `files.forEach`, creating a group the first time
      its directory is seen and pushing the file onto it.  `order` is the
      insertion order of the map's keys. */
  method GroupFiles(files: seq<FileData>) returns (groups: map<string, seq<FileData>>, order: seq<string>)
    ensures order == DirsOf(files)
    ensures forall d :: d in groups <==> d in order
    ensures forall d | d in groups :: groups[d] == GroupOf(files, d)
  {
    groups := map[];
    order := [];
    for k := 0 to |files|
      invariant Grouped(groups, order, files[..k])
    {
      groups, order := AddFile(files, k, groups, order);
    }
    assert files[..|files|] == files;
    forall d | d in order ensures d in groups {
      var i :| 0 <= i < |order| && order[i] == d;
    }
  }

  /** `groups` and `order` hold the grouping of `files`. */
  ghost predicate Grouped(groups: map<string, seq<FileData>>, order: seq<string>, files: seq<FileData>) {
    && order == DirsOf(files)
    && (forall i | 0 <= i < |order| :: order[i] in groups)
    && (forall d | d in groups :: d in order && groups[d] == GroupOf(files, d))
  }

  /** One iteration of the grouping loop: the group of the file's directory
      is created the first time that directory is seen, and the file is
      pushed onto it. */
  method AddFile(files: seq<FileData>, k: nat, groups: map<string, seq<FileData>>, order: seq<string>)
    returns (groups': map<string, seq<FileData>>, order': seq<string>)
    requires k < |files| && Grouped(groups, order, files[..k])
    ensures Grouped(groups', order', files[..k + 1])
  {
    var file := files[k];
    groups', order' := groups, order;
    if HasDir(file) {
      var dirName := DirName(file.path);
      var group := if dirName in groups then groups[dirName] else [];
      if dirName !in groups {
        order' := order + [dirName];
      }
      groups' := groups[dirName := group + [file]];
    }
    GroupedStep(files, k, groups, order, groups', order');
  }

  /** The grouping after one more file. */
  lemma GroupedStep(files: seq<FileData>, k: nat, groups: map<string, seq<FileData>>, order: seq<string>,
                    groups': map<string, seq<FileData>>, order': seq<string>)
    requires k < |files| && Grouped(groups, order, files[..k])
    requires !HasDir(files[k]) ==> groups' == groups && order' == order
    requires HasDir(files[k]) ==>
      var d := Dir(files[k]);
      && order' == (if d in groups then order else order + [d])
      && groups' == groups[d := (if d in groups then groups[d] else []) + [files[k]]]
    ensures Grouped(groups', order', files[..k + 1])
  {
    if HasDir(files[k]) {
      var d := Dir(files[k]);
      assert d in groups <==> d in order by {
        if d in order {
          var i :| 0 <= i < |order| && order[i] == d;
        }
      }
      OrderStep(files, k, order, order');
      KeysStep(groups, order, d, groups', order');
    } else {
      DirsStep(files, k);
    }
    GroupsStep(files, k, groups, order, groups', order');
  }

  /** The directory list grows exactly as `DirsOf` does. */
  lemma OrderStep(files: seq<FileData>, k: nat, order: seq<string>, order': seq<string>)
    requires k < |files| && order == DirsOf(files[..k]) && HasDir(files[k])
    requires order' == if Dir(files[k]) in order then order else order + [Dir(files[k])]
    ensures order' == DirsOf(files[..k + 1])
  {
    DirsStep(files, k);
  }

  /** Every listed directory still has a group. */
  lemma KeysStep(groups: map<string, seq<FileData>>, order: seq<string>, d: string,
                 groups': map<string, seq<FileData>>, order': seq<string>)
    requires forall i | 0 <= i < |order| :: order[i] in groups
    requires order' == (if d in groups then order else order + [d])
    requires groups'.Keys == groups.Keys + {d}
    ensures forall i | 0 <= i < |order'| :: order'[i] in groups'
  {
    forall i | 0 <= i < |order'| ensures order'[i] in groups' {
      if i < |order| {
        assert order'[i] == order[i];
      }
    }
  }

  /** Every group is listed and holds the files of its directory so far. */
  lemma GroupsStep(files: seq<FileData>, k: nat, groups: map<string, seq<FileData>>, order: seq<string>,
                   groups': map<string, seq<FileData>>, order': seq<string>)
    requires k < |files| && Grouped(groups, order, files[..k])
    requires !HasDir(files[k]) ==> groups' == groups && order' == order
    requires HasDir(files[k]) ==>
      var d := Dir(files[k]);
      && order' == (if d in groups then order else order + [d])
      && groups' == groups[d := (if d in groups then groups[d] else []) + [files[k]]]
    ensures forall d | d in groups' :: d in order' && groups'[d] == GroupOf(files[..k + 1], d)
  {
    DirsStep(files, k);
    forall d | d in groups'
      ensures d in order' && groups'[d] == GroupOf(files[..k + 1], d)
    {
      GroupStep(files, k, d);
      if d in groups {
        assert d in order && groups[d] == GroupOf(files[..k], d);
      }
    }
  }

  /** One more file extends the directory list at most by its own
      directory. */
  lemma DirsStep(files: seq<FileData>, k: nat)
    requires k < |files|
    ensures DirsOf(files[..k + 1]) ==
      if HasDir(files[k]) && Dir(files[k]) !in DirsOf(files[..k]) then DirsOf(files[..k]) + [Dir(files[k])]
      else DirsOf(files[..k])
  {
    assert files[..k + 1][..k] == files[..k];
  }

  /** One more file extends its own directory's group and no other. */
  lemma GroupStep(files: seq<FileData>, k: nat, d: string)
    requires k < |files|
    ensures GroupOf(files[..k + 1], d) ==
      GroupOf(files[..k], d) + (if HasDir(files[k]) && Dir(files[k]) == d then [files[k]] else [])
    ensures d !in DirsOf(files[..k]) ==> GroupOf(files[..k], d) == []
  {
    assert files[..k + 1][..k] == files[..k];
    GroupOfMembers(files[..k], d);
    DirsOfMembers(files[..k]);
    if GroupOf(files[..k], d) != [] {
      assert GroupOf(files[..k], d)[0] in GroupOf(files[..k], d);
    }
  }

  /** Each directory appears once. */
  lemma {:induction false} DirsDistinct(files: seq<FileData>)
    ensures forall i, j | 0 <= i < j < |DirsOf(files)| :: DirsOf(files)[i] != DirsOf(files)[j]
  {
    if files != [] {
      var init := files[..|files| - 1];
      DirsDistinct(init);
    }
  }

  /** Every file inside a directory lands in exactly the group of its
      directory, and a group is never empty. */
  lemma Partition(files: seq<FileData>, f: FileData, d: string)
    ensures f in files && HasDir(f) ==> f in GroupOf(files, Dir(f))
    ensures f in GroupOf(files, d) ==> Dir(f) == d
    ensures d in DirsOf(files) ==> GroupOf(files, d) != []
  {
    GroupOfMembers(files, d);
    GroupOfMembers(files, Dir(f));
    DirsOfMembers(files);
    if d in DirsOf(files) {
      var g :| g in files && HasDir(g) && Dir(g) == d;
      assert g in GroupOf(files, d);
    }
  }

  // ---------------------------------------------------------------------
  // Witnesses

  /** The title of a group: its type followed by ` Version`, or the
      directory name when the type is unknown. */
  function Title(dirName: string, files: seq<FileData>): (r: string)
    ensures LabelUtils.AnyPathContains(files, "ms-") ==> r == "MS Version"
    ensures !LabelUtils.AnyPathContains(files, "ms-") && LabelUtils.AnyPathContains(files, "ts-") ==> r == "TS Version"
    ensures !LabelUtils.AnyPathContains(files, "ms-") && !LabelUtils.AnyPathContains(files, "ts-") ==> r == dirName
  {
    var witnessType := LabelUtils.GetWitnessType(files);
    if witnessType != "" then witnessType + " Version" else dirName
  }

  /** The first element of a sequence, if any. */
  function First<T>(s: seq<T>): (r: Option<T>)
    ensures r.None? <==> s == []
    ensures r.Some? ==> r.value == s[0]
  {
    if s == [] then None else Some(s[0])
  }

  /** The folder record of a group: the directory is its id. */
  function GroupFolder(dirName: string, files: seq<FileData>): Folder {
    Folder(dirName, files, Some(Title(dirName, files)), Some(""))
  }

  /** The witness of directory `d` of a document's files. */
  function GroupWitness(files: seq<FileData>, d: string, loadXml: Folder -> Option<string>, parse: Parser): Witness {
    var group := GroupOf(files, d);
    MakeWitness(d, group, loadXml(GroupFolder(d, group)), parse)
  }

  /** The witness built for one group: its folder, its first image selected,
      shown, and the counts of its XML (zero without one).  `xml` is what
      loading the folder's XML file gave. */
  function MakeWitness(dirName: string, files: seq<FileData>, xml: Option<string>, parse: Parser): Witness {
    var folder := GroupFolder(dirName, files);
    var metrics := if xml.Some? && xml.value != "" then GetWitnessStats(xml.value, parse) else NoStats;
    Witness(folder, First(GetImageFiles(Some(files))), true, metrics)
  }

  /** The witness of a group is shown, selects the group's first image (none
      when it has no image), has the directory as its id and the title the
      paths decide, and counts the edits of the loaded XML (zero when none
      was loaded). */
  lemma MakeWitnessFields(dirName: string, files: seq<FileData>, xml: Option<string>, parse: Parser)
    ensures var w := MakeWitness(dirName, files, xml, parse);
      && w.enabled
      && w.folder.id == dirName && w.folder.files == files
      && w.folder.title == Some(Title(dirName, files)) && w.folder.description == Some("")
      && (w.selectedFile.None? <==> forall f | f in files :: !IsImageFile(f))
      && (w.selectedFile.Some? ==> IsImageFile(w.selectedFile.value) && w.selectedFile.value in files)
      && (xml.None? ==> w.metrics == NoStats)
      && (xml.Some? ==> w.metrics == GetWitnessStats(xml.value, parse))
  {
    var images := ImagesOf(files);
    ImagesOfMembers(files);
    if images != [] {
      assert images[0] in images;
    } else {
      assert forall f | f in files :: !IsImageFile(f);
    }
  }

  /** The first image is the first file, in the folder's order, that is an
      image. */
  lemma {:induction false} FirstImage(files: seq<FileData>, i: nat)
    requires i < |files| && IsImageFile(files[i])
    requires forall j | 0 <= j < i :: !IsImageFile(files[j])
    ensures First(ImagesOf(files)) == Some(files[i])
  {
    if i > 0 {
      FirstImage(files[1..], i - 1);
    }
  }

  /** `getWitnessesFromDocument`: one witness per directory, in the order
      the directories were first seen.  `loadXml` stands for
      `loadXMLContent` of the witness's folder. */
  method GetWitnessesFromDocument(document: Folder, loadXml: Folder -> Option<string>, parse: Parser)
    returns (witnesses: seq<Witness>)
    ensures |witnesses| == |DirsOf(document.files)|
    ensures forall i | 0 <= i < |witnesses| ::
      witnesses[i] == GroupWitness(document.files, DirsOf(document.files)[i], loadXml, parse)
  {
    var all := document.files;
    var groups, order := GroupFiles(all);
    witnesses := LoadWitnesses(all, groups, order, loadXml, parse);
    GroupWitnessesAt(all, order, loadXml, parse);
  }

  /** The loop of `getWitnessesFromDocument`: a witness for each directory of
      `order`, built from its group. */
  method LoadWitnesses(all: seq<FileData>, groups: map<string, seq<FileData>>, order: seq<string>,
                       loadXml: Folder -> Option<string>, parse: Parser)
    returns (witnesses: seq<Witness>)
    requires forall i | 0 <= i < |order| :: order[i] in groups && groups[order[i]] == GroupOf(all, order[i])
    ensures witnesses == GroupWitnesses(all, order, loadXml, parse)
  {
    witnesses := [];
    for k := 0 to |order|
      invariant witnesses == GroupWitnesses(all, order[..k], loadXml, parse)
    {
      var w := LoadWitness(all, order[k], groups[order[k]], loadXml, parse);
      assert order[..k + 1][..k] == order[..k];
      witnesses := witnesses + [w];
    }
    assert order[..|order|] == order;
  }

  /** The witnesses of directories `ds`, in that order. */
  function GroupWitnesses(files: seq<FileData>, ds: seq<string>, loadXml: Folder -> Option<string>, parse: Parser): (r: seq<Witness>)
    ensures |r| == |ds|
  {
    if ds == [] then []
    else GroupWitnesses(files, ds[..|ds| - 1], loadXml, parse) + [GroupWitness(files, ds[|ds| - 1], loadXml, parse)]
  }

  /** The `i`-th witness is the one of the `i`-th directory. */
  lemma {:induction false} GroupWitnessesAt(files: seq<FileData>, ds: seq<string>, loadXml: Folder -> Option<string>, parse: Parser)
    ensures forall i | 0 <= i < |ds| :: GroupWitnesses(files, ds, loadXml, parse)[i] == GroupWitness(files, ds[i], loadXml, parse)
  {
    if ds != [] {
      var init := ds[..|ds| - 1];
      GroupWitnessesAt(files, init, loadXml, parse);
      var front := GroupWitnesses(files, init, loadXml, parse);
      var r := GroupWitnesses(files, ds, loadXml, parse);
      assert r == front + [GroupWitness(files, ds[|ds| - 1], loadXml, parse)];
      forall i | 0 <= i < |ds| - 1
        ensures r[i] == GroupWitness(files, ds[i], loadXml, parse)
      {
        assert r[i] == front[i] && ds[i] == init[i];
      }
    }
  }

  /** One iteration of `getWitnessesFromDocument`: the folder of a group,
      its XML loaded, and the witness built from them. */
  method LoadWitness(all: seq<FileData>, dirName: string, files: seq<FileData>,
                     loadXml: Folder -> Option<string>, parse: Parser)
    returns (w: Witness)
    requires files == GroupOf(all, dirName)
    ensures w == GroupWitness(all, dirName, loadXml, parse)
  {
    var folder := GroupFolder(dirName, files);
    var xmlContent := loadXml(folder);
    w := MakeWitness(dirName, files, xmlContent, parse);
  }

  // ---------------------------------------------------------------------
  // List updates

  /** `witnesses.find(w => w.folder.id === id)`: the first witness with
      that id. */
  function FindIndex(ws: seq<Witness>, id: string): (r: Option<nat>)
    ensures r.Some? ==> r.value < |ws| && ws[r.value].folder.id == id
    ensures r.Some? ==> forall j | 0 <= j < r.value :: ws[j].folder.id != id
    ensures r.None? <==> forall j | 0 <= j < |ws| :: ws[j].folder.id != id
  {
    if ws == [] then None
    else if ws[0].folder.id == id then Some(0)
    else match FindIndex(ws[1..], id)
      case None => None
      case Some(i) => Some(i + 1)
  }

  /** The list after `toggleWitness(id)`. */
  function Toggled(ws: seq<Witness>, id: string): seq<Witness> {
    match FindIndex(ws, id)
    case None => ws
    case Some(i) => ws[i := ws[i].(enabled := !ws[i].enabled)]
  }

  /** The list after `updateWitnessFile(id, file)`. */
  function WithFile(ws: seq<Witness>, id: string, file: FileData): seq<Witness> {
    match FindIndex(ws, id)
    case None => ws
    case Some(i) => ws[i := ws[i].(selectedFile := Some(file))]
  }

  /** Toggling flips `enabled` of the first witness with the id and
      changes nothing else; an unknown id changes nothing. */
  lemma ToggledSpec(ws: seq<Witness>, id: string)
    ensures |Toggled(ws, id)| == |ws|
    ensures forall j | 0 <= j < |ws| ::
      var w, v := ws[j], Toggled(ws, id)[j];
      && v.folder == w.folder && v.selectedFile == w.selectedFile && v.metrics == w.metrics
      && (v.enabled != w.enabled <==> FindIndex(ws, id) == Some(j))
  {
  }

  /** Toggling twice restores the list. */
  lemma ToggleTwice(ws: seq<Witness>, id: string)
    ensures Toggled(Toggled(ws, id), id) == ws
  {
    match FindIndex(ws, id)
    case None =>
    case Some(i) =>
      var once := Toggled(ws, id);
      assert forall j | 0 <= j < |ws| :: once[j].folder.id == ws[j].folder.id;
      assert FindIndex(once, id) == Some(i);
  }

  /** Updating sets the selected file of the first witness with the id and
      changes nothing else; doing it twice is doing it once. */
  lemma WithFileSpec(ws: seq<Witness>, id: string, file: FileData)
    ensures |WithFile(ws, id, file)| == |ws|
    ensures forall j | 0 <= j < |ws| ::
      var w, v := ws[j], WithFile(ws, id, file)[j];
      && v.folder == w.folder && v.enabled == w.enabled && v.metrics == w.metrics
      && v.selectedFile == (if FindIndex(ws, id) == Some(j) then Some(file) else w.selectedFile)
    ensures WithFile(WithFile(ws, id, file), id, file) == WithFile(ws, id, file)
  {
    match FindIndex(ws, id)
    case None =>
    case Some(i) =>
      var once := WithFile(ws, id, file);
      assert forall j | 0 <= j < |ws| :: once[j].folder.id == ws[j].folder.id;
      assert FindIndex(once, id) == Some(i);
  }

  /** The store: the current list of witnesses. */
  class WitnessStore {
    var witnesses: seq<Witness>

    constructor ()
      ensures witnesses == []
    {
      witnesses := [];
    }

    /** `getWitnessesFromDocument` followed by `set`. */
    method Load(document: Folder, loadXml: Folder -> Option<string>, parse: Parser) returns (ws: seq<Witness>)
      modifies this
      ensures witnesses == ws
      ensures |ws| == |DirsOf(document.files)|
      ensures forall i | 0 <= i < |ws| :: ws[i].enabled && ws[i].folder.id == DirsOf(document.files)[i]
      ensures forall i | 0 <= i < |ws| ::
        ws[i] == GroupWitness(document.files, DirsOf(document.files)[i], loadXml, parse)
    {
      ws := GetWitnessesFromDocument(document, loadXml, parse);
      witnesses := ws;
    }

    /** `updateWitnessFile(witnessId, file)`. */
    method UpdateWitnessFile(witnessId: string, file: FileData)
      modifies this
      ensures witnesses == WithFile(old(witnesses), witnessId, file)
    {
      var i := FindIndex(witnesses, witnessId);
      if i.Some? {
        var w := witnesses[i.value];
        witnesses := witnesses[i.value := w.(selectedFile := Some(file))];
      }
    }

    /** `toggleWitness(id)`. */
    method ToggleWitness(id: string)
      modifies this
      ensures witnesses == Toggled(old(witnesses), id)
    {
      var i := FindIndex(witnesses, id);
      if i.Some? {
        var w := witnesses[i.value];
        witnesses := witnesses[i.value := w.(enabled := !w.enabled)];
      }
    }
  }
}
