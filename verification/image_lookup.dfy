/**
 * copy_images of sample_v2.py, reduced to its bookkeeping: for every row, in
 * table order, the directory walk is scanned for the first directory whose
 * file list holds the row's image_path; that file is copied (and counted),
 * otherwise the name goes to not_found. The walk is a given sequence of
 * (directory, file names) entries in the order os.walk yields them; the file
 * system itself is not modelled.
 */
module ImageLookup {
  import opened Common
  import opened Records

  /** One (root_dir, dirs, files) triple of os.walk, without the unused dirs. */
  datatype WalkEntry = WalkEntry(dir: string, files: seq<string>)

  /** One shutil.copy2 call: the file name and the directory it was found in. */
  datatype Copy = Copy(dir: string, file: string)

  /** The index of the first walk entry whose files hold name, if any. */
  function FirstMatch(walk: seq<WalkEntry>, name: string): (r: Option<nat>)
    ensures r.Some? ==> r.value < |walk| && name in walk[r.value].files
    ensures r.Some? ==> forall j :: 0 <= j < r.value ==> name !in walk[j].files
    ensures r.None? <==> forall j :: 0 <= j < |walk| ==> name !in walk[j].files
  {
    if |walk| == 0 then None
    else if name in walk[0].files then Some(0)
    else
      match FirstMatch(walk[1..], name)
      case None => None
      case Some(j) => Some(j + 1)
  }

  /** The copy a row causes, if its file is found. */
  function CopyOf(walk: seq<WalkEntry>, name: string): (c: seq<Copy>)
    ensures |c| <= 1
    ensures |c| == 1 <==> FirstMatch(walk, name).Some?
  {
    match FirstMatch(walk, name)
    case None => []
    case Some(j) => [Copy(walk[j].dir, name)]
  }

  /** The copies the rows cause, in row order. */
  function Copies(rows: seq<Record>, walk: seq<WalkEntry>): seq<Copy> {
    if |rows| == 0 then []
    else Copies(rows[..|rows| - 1], walk) + CopyOf(walk, rows[|rows| - 1].imagePath)
  }

  /** The image names that no walk entry holds, in row order (with repeats). */
  function NotFound(rows: seq<Record>, walk: seq<WalkEntry>): seq<string> {
    if |rows| == 0 then []
    else
      var name := rows[|rows| - 1].imagePath;
      NotFound(rows[..|rows| - 1], walk) + (if FirstMatch(walk, name).None? then [name] else [])
  }

  /** Every row is either copied once or reported once: copied + len(not_found) == len(df). */
  lemma {:induction false} CountsAddUp(rows: seq<Record>, walk: seq<WalkEntry>)
    ensures |Copies(rows, walk)| + |NotFound(rows, walk)| == |rows|
  {
    if |rows| > 0 {
      CountsAddUp(rows[..|rows| - 1], walk);
    }
  }

  /** A name is reported missing iff some row asks for it and no directory of the walk holds it. */
  lemma {:induction false} NotFoundIff(rows: seq<Record>, walk: seq<WalkEntry>, name: string)
    ensures name in NotFound(rows, walk) <==>
      (exists i :: 0 <= i < |rows| && rows[i].imagePath == name) && forall j :: 0 <= j < |walk| ==> name !in walk[j].files
  {
    if |rows| > 0 {
      var prefix := rows[..|rows| - 1];
      NotFoundIff(prefix, walk, name);
      assert forall i :: 0 <= i < |prefix| ==> prefix[i] == rows[i];
      if exists i :: 0 <= i < |rows| && rows[i].imagePath == name {
        var i :| 0 <= i < |rows| && rows[i].imagePath == name;
        if i < |prefix| {
          assert prefix[i].imagePath == name;
        }
      }
    }
  }

  /** Each copy takes the file from the first directory of the walk that holds it. */
  lemma {:induction false} CopiesFromFirstMatch(rows: seq<Record>, walk: seq<WalkEntry>, c: Copy)
    requires c in Copies(rows, walk)
    ensures FirstMatch(walk, c.file).Some? && walk[FirstMatch(walk, c.file).value].dir == c.dir
    ensures exists i :: 0 <= i < |rows| && rows[i].imagePath == c.file
  {
    var prefix := rows[..|rows| - 1];
    var last := rows[|rows| - 1];
    if c in Copies(prefix, walk) {
      CopiesFromFirstMatch(prefix, walk, c);
      var i :| 0 <= i < |prefix| && prefix[i].imagePath == c.file;
      assert rows[i] == prefix[i];
    } else {
      assert c in CopyOf(walk, last.imagePath);
    }
  }

  /** Every row whose file the walk holds is copied, from the first directory that holds it. */
  lemma {:induction false} FoundRowIsCopied(rows: seq<Record>, walk: seq<WalkEntry>, i: nat)
    requires i < |rows| && FirstMatch(walk, rows[i].imagePath).Some?
    ensures Copy(walk[FirstMatch(walk, rows[i].imagePath).value].dir, rows[i].imagePath) in Copies(rows, walk)
  {
    var prefix := rows[..|rows| - 1];
    if i < |rows| - 1 {
      assert prefix[i] == rows[i];
      FoundRowIsCopied(prefix, walk, i);
    }
  }

  /**
   * The inner loop of copy_images: walk the directories in order and stop at
   * the first one whose files hold name.
   */
  method FindFile(walk: seq<WalkEntry>, name: string) returns (found: bool, j: nat)
    ensures found <==> FirstMatch(walk, name).Some?
    ensures found ==> FirstMatch(walk, name) == Some(j)
  {
    found := false;
    j := 0;
    while j < |walk|
      invariant 0 <= j <= |walk|
      invariant forall k :: 0 <= k < j ==> name !in walk[k].files
    {
      if name in walk[j].files {
        found := true;
        break;
      }
      j := j + 1;
    }
  }

  /**
   * copy_images(df_sampled, root, output_dir): returns the copied count, the
   * missing names and the copies made.
   */
  method CopyImages(rows: seq<Record>, walk: seq<WalkEntry>) returns (copied: nat, notFound: seq<string>, copies: seq<Copy>)
    ensures copied + |notFound| == |rows|
    ensures copied == |copies|
    ensures copies == Copies(rows, walk)
    ensures notFound == NotFound(rows, walk)
  {
    copied := 0;
    notFound := [];
    copies := [];
    var i := 0;
    while i < |rows|
      invariant 0 <= i <= |rows|
      invariant copies == Copies(rows[..i], walk)
      invariant notFound == NotFound(rows[..i], walk)
      invariant copied == |copies|
      invariant copied + |notFound| == i
    {
      var imgFile := rows[i].imagePath;
      var found, j := FindFile(walk, imgFile);
      Step(rows, walk, i);
      if found {
        copies := copies + [Copy(walk[j].dir, imgFile)];
        copied := copied + 1;
      } else {
        notFound := notFound + [imgFile];
      }
      i := i + 1;
    }
    assert rows[..i] == rows;
  }

  /** Extending the processed prefix by one row extends both reference results by that row's outcome. */
  lemma Step(rows: seq<Record>, walk: seq<WalkEntry>, i: nat)
    requires i < |rows|
    ensures Copies(rows[..i + 1], walk) == Copies(rows[..i], walk) + CopyOf(walk, rows[i].imagePath)
    ensures NotFound(rows[..i + 1], walk) ==
      NotFound(rows[..i], walk) + (if FirstMatch(walk, rows[i].imagePath).None? then [rows[i].imagePath] else [])
  {
    assert rows[..i + 1][..i] == rows[..i];
  }
}
