/**
 * The parts of `std::path` the launcher relies on. A path is the sequence of
 * its components; an absolute path starts with the root component.
 */
module Paths {
  import opened Wrappers

  datatype Component = RootDir | Normal(name: string)

  type Path = seq<Component>

  /**
   * `Path::parent`: the path without its last component, or `None` for the
   * empty path and for a path that ends in the root.
   */
  function Parent(p: Path): (r: Option<Path>)
    ensures r.None? <==> p == [] || p[|p| - 1] == RootDir
    ensures r.Some? ==> |r.value| == |p| - 1 && r.value + [p[|p| - 1]] == p
  {
    if p == [] || p[|p| - 1] == RootDir then None else Some(p[..|p| - 1])
  }

  /** `Path::join` of a single file name. */
  function Join(dir: Path, name: string): (r: Path)
    ensures |r| == |dir| + 1 && r[..|dir|] == dir && r[|dir|] == Normal(name)
    ensures Parent(r) == Some(dir)
  {
    dir + [Normal(name)]
  }

  /** The pieces of `s` between separators. */
  function Segments(s: string): (r: seq<string>)
    ensures |r| >= 1
    ensures forall i :: 0 <= i < |r| ==> '/' !in r[i]
    ensures '/' !in s ==> r == [s]
  {
    if s == [] then [""]
    else
      assert s == [s[0]] + s[1..];
      var rest := Segments(s[1..]);
      if s[0] == '/' then [""] + rest else [[s[0]] + rest[0]] + rest[1..]
  }

  /** Empty pieces (doubled or trailing separators) and `.` pieces name no component. */
  function NormalComponents(pieces: seq<string>): (r: Path)
    ensures |r| <= |pieces|
    ensures forall i :: 0 <= i < |r| ==> r[i].Normal? && r[i].name in pieces
                                         && r[i].name != "" && r[i].name != "."
  {
    if pieces == [] then []
    else
      var rest := NormalComponents(pieces[1..]);
      if pieces[0] == "" || pieces[0] == "." then rest else [Normal(pieces[0])] + rest
  }

  /** `PathBuf::from` a string: an initial separator names the root. */
  function PathFrom(s: string): (p: Path)
    ensures (s != [] && s[0] == '/') <==> (p != [] && p[0] == RootDir)
    ensures forall i :: 0 <= i < |p| && p[i].Normal? ==> p[i].name != "" && '/' !in p[i].name
    ensures forall i :: 0 < i < |p| ==> p[i].Normal?
  {
    var pieces := Segments(s);
    assert forall c :: c in NormalComponents(pieces) ==> c.Normal? && '/' !in c.name by {
      forall c | c in NormalComponents(pieces) ensures c.Normal? && '/' !in c.name {
        var i :| 0 <= i < |NormalComponents(pieces)| && NormalComponents(pieces)[i] == c;
        var j :| 0 <= j < |pieces| && pieces[j] == c.name;
      }
    }
    (if s != [] && s[0] == '/' then [RootDir] else []) + NormalComponents(pieces)
  }

  /** A name that `PathBuf::from` keeps as one normal component. */
  predicate ValidName(name: string)
  {
    name != "" && name != "." && '/' !in name
  }

  /** A path as `PathBuf::from` can produce it: the root only first, every other component a valid name. */
  predicate WellFormedPath(p: Path)
  {
    forall i :: 0 <= i < |p| ==> (p[i] == RootDir ==> i == 0) && (p[i].Normal? ==> ValidName(p[i].name))
  }

  /** The names of `names` joined by separators. */
  function NamesText(names: Path): (s: string)
    requires forall i :: 0 <= i < |names| ==> names[i].Normal?
  {
    if names == [] then ""
    else if |names| == 1 then names[0].name
    else names[0].name + "/" + NamesText(names[1..])
  }

  /** The text of a path: a leading separator for the root, then the names joined by separators. */
  function PathText(p: Path): (s: string)
    requires WellFormedPath(p)
  {
    if p != [] && p[0] == RootDir then "/" + NamesText(p[1..]) else NamesText(p)
  }

  lemma {:induction false} SegmentsOfJoin(a: string, b: string)
    requires '/' !in a
    ensures Segments(a + "/" + b) == [a] + Segments(b)
  {
    if a == [] {
      assert a + "/" + b == "/" + b;
      assert ("/" + b)[1..] == b;
    } else {
      assert (a + "/" + b)[0] == a[0] && (a + "/" + b)[1..] == a[1..] + "/" + b;
      SegmentsOfJoin(a[1..], b);
      assert [a[0]] + a[1..] == a;
    }
  }

  lemma {:induction false} NormalComponentsOfNamesText(names: Path)
    requires forall i :: 0 <= i < |names| ==> names[i].Normal? && ValidName(names[i].name)
    ensures NormalComponents(Segments(NamesText(names))) == names
    ensures NamesText(names) != [] ==> NamesText(names)[0] != '/'
  {
    if |names| == 1 {
      assert Segments(names[0].name) == [names[0].name];
      assert names == [Normal(names[0].name)];
    } else if |names| > 1 {
      var head, rest := names[0].name, names[1..];
      NormalComponentsOfNamesText(rest);
      SegmentsOfJoin(head, NamesText(rest));
      var pieces := [head] + Segments(NamesText(rest));
      assert pieces[1..] == Segments(NamesText(rest));
      assert NormalComponents(pieces) == [Normal(head)] + rest;
      assert names == [Normal(head)] + rest;
      assert NamesText(names)[0] == head[0];
    }
  }

  /** `PathBuf::from` reads the text of a well-formed path back as that path. */
  lemma PathFromPathText(p: Path)
    requires WellFormedPath(p)
    ensures PathFrom(PathText(p)) == p
  {
    if p != [] && p[0] == RootDir {
      var rest := p[1..];
      NormalComponentsOfNamesText(rest);
      var t := NamesText(rest);
      assert ("/" + t)[0] == '/' && ("/" + t)[1..] == t;
      assert Segments("/" + t) == [""] + Segments(t);
      assert ([""] + Segments(t))[1..] == Segments(t);
      assert p == [RootDir] + rest;
    } else {
      NormalComponentsOfNamesText(p);
    }
  }

  /**
   * `Path::push` of the text `s` onto `dir`: an absolute `s` replaces the
   * path, a relative one appends each of its components.
   */
  function Pushed(dir: Path, s: string): (r: Path)
    ensures s != [] && s[0] == '/' ==> r == PathFrom(s)
    ensures !(s != [] && s[0] == '/') ==> |r| >= |dir| && r[..|dir|] == dir && r[|dir|..] == PathFrom(s)
    ensures ValidName(s) ==> r == Join(dir, s)
  {
    if s != [] && s[0] == '/' then PathFrom(s)
    else
      assert ValidName(s) ==> Segments(s) == [s] && NormalComponents([s]) == [Normal(s)];
      dir + PathFrom(s)
  }

  /** A file system snapshot: the contents of every file that can be read as UTF-8 text. */
  type FileSystem = map<Path, string>

  /** An owned, growable path (`std::path::PathBuf`). */
  class PathBuf {
    var components: Path

    constructor (p: Path)
      ensures components == p
    {
      components := p;
    }

    /** `PathBuf::push` of the text `s`. */
    method Push(s: string)
      modifies this
      ensures components == Pushed(old(components), s)
    {
      if s != [] && s[0] == '/' {
        components := PathFrom(s);
      } else {
        components := components + PathFrom(s);
      }
    }
  }
}
