/** CheckIfValidFilePath and CheckIfValidDirectoryPath of TrimZip/TrimZipApplication.cs:
    a file is skipped when its own name, or the name of any directory above it,
    starts with '.'. */
module PathFilter {

  import opened Wrappers

  /** A directory: its name and the directory that holds it (None at a root). */
  datatype DirectoryPath = DirectoryPath(name: string, parent: Option<DirectoryPath>)

  datatype FilePath = FilePath(name: string, directory: DirectoryPath)

  predicate IsHidden(name: string)
  {
    |name| > 0 && name[0] == '.'
  }

  /** The names met walking from a directory up to its root, nearest first. */
  function Ancestry(d: DirectoryPath): (names: seq<string>)
    ensures |names| > 0 && names[0] == d.name
    decreases d
  {
    [d.name] + AncestryFrom(d.parent)
  }

  function AncestryFrom(d: Option<DirectoryPath>): seq<string>
    decreases d
  {
    match d
    case None => []
    case Some(p) => Ancestry(p)
  }

  /** No name in the list starts with '.'. */
  predicate NoneHidden(names: seq<string>)
  {
    forall i :: 0 <= i < |names| ==> !IsHidden(names[i])
  }

  /** The parent walk: valid exactly when no directory on the way to the root is hidden. */
  method CheckIfValidDirectoryPath(directory: DirectoryPath) returns (valid: bool)
    ensures valid <==> NoneHidden(Ancestry(directory))
  {
    var dir := Some(directory);
    ghost var walked: seq<string> := [];
    while dir.Some?
      invariant walked + AncestryFrom(dir) == Ancestry(directory)
      invariant NoneHidden(walked)
      decreases dir
    {
      if IsHidden(dir.value.name) {
        assert Ancestry(directory)[|walked|] == dir.value.name;
        return false;
      }
      walked := walked + [dir.value.name];
      dir := dir.value.parent;
    }
    assert walked == Ancestry(directory);
    return true;
  }

  /** A file is valid when neither its name nor any directory above it is hidden;
      the directories are not walked once the name itself is hidden. */
  method CheckIfValidFilePath(file: FilePath) returns (valid: bool)
    ensures valid <==> NoneHidden([file.name] + Ancestry(file.directory))
  {
    if IsHidden(file.name) {
      assert ([file.name] + Ancestry(file.directory))[0] == file.name;
      return false;
    }
    valid := CheckIfValidDirectoryPath(file.directory);
    if valid {
      forall i | 0 <= i < |[file.name] + Ancestry(file.directory)|
        ensures !IsHidden(([file.name] + Ancestry(file.directory))[i])
      {
        if i > 0 {
          assert ([file.name] + Ancestry(file.directory))[i] == Ancestry(file.directory)[i - 1];
        }
      }
    } else {
      var i :| 0 <= i < |Ancestry(file.directory)| && IsHidden(Ancestry(file.directory)[i]);
      assert ([file.name] + Ancestry(file.directory))[i + 1] == Ancestry(file.directory)[i];
    }
  }

  /** e is d or lies somewhere below it, at any depth. */
  predicate IsWithin(e: DirectoryPath, d: DirectoryPath)
    decreases e
  {
    e == d || (e.parent.Some? && IsWithin(e.parent.value, d))
  }

  /** A hidden directory keeps everything below it out, however deep. */
  lemma {:induction false} HiddenBelow(d: DirectoryPath, e: DirectoryPath)
    requires !NoneHidden(Ancestry(d)) && IsWithin(e, d)
    ensures !NoneHidden(Ancestry(e))
    decreases e
  {
    if e != d {
      var p := e.parent.value;
      HiddenBelow(d, p);
      var k :| 0 <= k < |Ancestry(p)| && IsHidden(Ancestry(p)[k]);
      assert Ancestry(e) == [e.name] + Ancestry(p);
      assert Ancestry(e)[k + 1] == Ancestry(p)[k];
    }
  }

  /** A hidden name anywhere on a directory's path to the root makes the directory,
      each directory directly inside it and every directory further below invalid. */
  lemma HiddenAncestorHidesAll(d: DirectoryPath, k: nat)
    requires k < |Ancestry(d)| && IsHidden(Ancestry(d)[k])
    ensures !NoneHidden(Ancestry(d))
    ensures forall name :: !NoneHidden(Ancestry(DirectoryPath(name, Some(d))))
    ensures forall e :: IsWithin(e, d) ==> !NoneHidden(Ancestry(e))
  {
    forall name ensures !NoneHidden(Ancestry(DirectoryPath(name, Some(d)))) {
      assert Ancestry(DirectoryPath(name, Some(d))) == [name] + Ancestry(d);
      assert Ancestry(DirectoryPath(name, Some(d)))[k + 1] == Ancestry(d)[k];
    }
    forall e | IsWithin(e, d) ensures !NoneHidden(Ancestry(e)) {
      HiddenBelow(d, e);
    }
  }

  /** The parent of a valid directory is valid. */
  lemma ValidDirectoryHasValidParent(d: DirectoryPath)
    requires NoneHidden(Ancestry(d)) && d.parent.Some?
    ensures NoneHidden(Ancestry(d.parent.value))
  {
    forall i | 0 <= i < |Ancestry(d.parent.value)| ensures !IsHidden(Ancestry(d.parent.value)[i]) {
      assert Ancestry(d) == [d.name] + Ancestry(d.parent.value);
      assert Ancestry(d)[i + 1] == Ancestry(d.parent.value)[i];
    }
  }
}
