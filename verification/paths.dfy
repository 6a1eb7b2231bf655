/**
 The part of Python's `pathlib.PurePosixPath` that the commands rely on:
 building a path from a string, asking whether it is absolute, taking its
 last component, and rendering it back with `str()`.

 A path is a root flag plus the list of its components. Parsing splits on
 '/', drops empty and "." pieces (so repeated and trailing slashes vanish),
 and keeps everything else. The special "//" root is not modelled.
 */
module Paths {

  datatype Path = Path(absolute: bool, parts: seq<string>)

  /** `PurePosixPath(s).is_absolute()`: the string starts at the root. */
  predicate IsAbsolute(s: string) {
    |s| > 0 && s[0] == '/'
  }

  /** Python's `s.split('/')`. */
  function Split(s: string): (pieces: seq<string>)
    ensures |pieces| >= 1
    ensures forall k :: 0 <= k < |pieces| ==> '/' !in pieces[k]
    decreases |s|
  {
    if |s| == 0 then [""]
    else
      var rest := Split(s[1..]);
      if s[0] == '/' then [""] + rest
      else [[s[0]] + rest[0]] + rest[1..]
  }

  /** Python's `'/'.join(pieces)`. */
  function Join(pieces: seq<string>): string
    decreases |pieces|
  {
    if |pieces| == 0 then ""
    else if |pieces| == 1 then pieces[0]
    else pieces[0] + "/" + Join(pieces[1..])
  }

  /** A piece of the split string that survives as a path component. */
  predicate IsComponent(piece: string) {
    piece != "" && piece != "." && '/' !in piece
  }

  /** Every component of a path is a non-empty, slash-free piece other than ".". */
  predicate WellFormed(p: Path) {
    forall k :: 0 <= k < |p.parts| ==> IsComponent(p.parts[k])
  }

  function Components(pieces: seq<string>): (parts: seq<string>)
    requires forall k :: 0 <= k < |pieces| ==> '/' !in pieces[k]
    ensures forall k :: 0 <= k < |parts| ==> IsComponent(parts[k])
    ensures forall x :: x in parts <==> x in pieces && x != "" && x != "."
    decreases |pieces|
  {
    if |pieces| == 0 then []
    else if pieces[0] == "" || pieces[0] == "." then Components(pieces[1..])
    else [pieces[0]] + Components(pieces[1..])
  }

  /** `PurePosixPath(s)`. */
  function Parse(s: string): (p: Path)
    ensures p.absolute <==> IsAbsolute(s)
    ensures WellFormed(p)
  {
    Path(IsAbsolute(s), Components(Split(s)))
  }

  /** `str(p)`: the root, then the components joined by '/'; an empty relative path is ".". */
  function Render(p: Path): string {
    if p.absolute then "/" + Join(p.parts)
    else if |p.parts| == 0 then "."
    else Join(p.parts)
  }

  /**
   Unless the first component is malformed, the text of a path is never
   empty and starts at the root exactly when the path is absolute.
   */
  lemma RenderShape(p: Path)
    requires |p.parts| == 0 || IsComponent(p.parts[0])
    ensures |Render(p)| > 0
    ensures IsAbsolute(Render(p)) <==> p.absolute
  {
    RelativeJoin(p);
  }

  /**
   `p.name`: the last component, or "" when there is none. The path is its
   parent's components followed by the name, and for a well-formed path the
   name is itself a component.
   */
  function Name(p: Path): (name: string)
    ensures name == "" <==> |p.parts| == 0 || p.parts[|p.parts| - 1] == ""
    ensures |p.parts| > 0 ==> p.parts == p.parts[..|p.parts| - 1] + [name]
    ensures WellFormed(p) && |p.parts| > 0 ==> IsComponent(name)
  {
    if |p.parts| == 0 then "" else p.parts[|p.parts| - 1]
  }

  lemma {:induction false} SplitPrefix(a: string, b: string)
    requires '/' !in a
    ensures Split(a + b) == [a + Split(b)[0]] + Split(b)[1..]
    decreases |a|
  {
    if |a| == 0 {
      assert a + b == b;
      assert a + Split(b)[0] == Split(b)[0];
      assert Split(b) == [Split(b)[0]] + Split(b)[1..];
    } else {
      assert (a + b)[1..] == a[1..] + b;
      assert (a + b)[0] == a[0];
      SplitPrefix(a[1..], b);
      assert [a[0]] + (a[1..] + Split(b)[0]) == a + Split(b)[0];
    }
  }

  /** Splitting the joined pieces gives the pieces back. */
  lemma {:induction false} SplitJoin(pieces: seq<string>)
    requires |pieces| >= 1
    requires forall k :: 0 <= k < |pieces| ==> '/' !in pieces[k]
    ensures Split(Join(pieces)) == pieces
    decreases |pieces|
  {
    if |pieces| == 1 {
      SplitPrefix(pieces[0], "");
      assert pieces[0] + "" == pieces[0];
      assert pieces[0] + Split("")[0] == pieces[0];
    } else {
      var rest := Join(pieces[1..]);
      SplitJoin(pieces[1..]);
      assert pieces[0] + "/" + rest == pieces[0] + ("/" + rest);
      SplitPrefix(pieces[0], "/" + rest);
      assert ("/" + rest)[1..] == rest;
      assert Split("/" + rest) == [""] + pieces[1..];
      assert pieces[0] + "" == pieces[0];
    }
  }

  /** Joining the split string gives the string back. */
  lemma {:induction false} JoinSplit(s: string)
    ensures Join(Split(s)) == s
    decreases |s|
  {
    if |s| > 0 {
      var rest := Split(s[1..]);
      JoinSplit(s[1..]);
      if s[0] == '/' {
        assert Split(s) == [""] + rest;
        assert ([""] + rest)[1..] == rest;
        assert s == "/" + s[1..];
      } else {
        var first := [s[0]] + rest[0];
        assert Split(s) == [first] + rest[1..];
        JoinCons(first, rest[1..]);
        JoinCons(rest[0], rest[1..]);
        assert [rest[0]] + rest[1..] == rest;
        assert s == [s[0]] + s[1..];
      }
    }
  }

  /** Joining one more piece in front. */
  lemma JoinCons(first: string, rest: seq<string>)
    ensures Join([first] + rest) == if |rest| == 0 then first else first + "/" + Join(rest)
  {
    assert ([first] + rest)[1..] == rest;
  }

  lemma {:induction false} ComponentsKeepsComponents(parts: seq<string>)
    requires forall k :: 0 <= k < |parts| ==> IsComponent(parts[k])
    requires forall k :: 0 <= k < |parts| ==> '/' !in parts[k]
    ensures Components(parts) == parts
    decreases |parts|
  {
    if |parts| > 0 {
      ComponentsKeepsComponents(parts[1..]);
    }
  }

  /** Rendering a well-formed path and parsing the text gives the same path. */
  lemma ParseRender(p: Path)
    requires WellFormed(p)
    ensures Parse(Render(p)) == p
  {
    if |p.parts| == 0 {
      if p.absolute {
        assert Render(p) == "/";
        assert Split("/") == [""] + Split("");
      } else {
        SplitPrefix(".", "");
        assert "." + "" == ".";
      }
    } else {
      SplitJoin(p.parts);
      ComponentsKeepsComponents(p.parts);
      if p.absolute {
        var text := "/" + Join(p.parts);
        assert text[1..] == Join(p.parts);
        assert Split(text) == [""] + p.parts;
        assert ([""] + p.parts)[1..] == p.parts;
      } else {
        JoinStartsWithFirst(p.parts);
      }
    }
  }

  /** Components joined after a well-formed first one give a non-empty text that does not start at the root. */
  lemma RelativeJoin(p: Path)
    ensures |p.parts| > 0 && IsComponent(p.parts[0]) ==> |Join(p.parts)| > 0 && Join(p.parts)[0] != '/'
  {
    if |p.parts| > 0 && IsComponent(p.parts[0]) {
      assert p.parts[0][0] in p.parts[0];
      JoinStartsWithFirst(p.parts);
    }
  }

  lemma {:induction false} JoinStartsWithFirst(parts: seq<string>)
    requires |parts| > 0 && |parts[0]| > 0
    ensures |Join(parts)| > 0 && Join(parts)[0] == parts[0][0]
    decreases |parts|
  {
    if |parts| > 1 {
      assert Join(parts) == parts[0] + "/" + Join(parts[1..]);
    }
  }
}
