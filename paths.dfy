/** Locations inside a compared value and their printed form (path.go). */
module Paths {
  import opened Text

  /** A path node: the root, a struct field, a map entry or a slice element. */
  datatype Path =
    | Root
    | Field(parent: Path, name: string)
    | Entry(parent: Path, key: string)
    | Element(parent: Path, index: int)

  /**
   * Path.String: the parent first, then `.name` for a field (the dot only
   * when something was written before it), `[key]` for an entry and
   * `[index]` for an element.
   */
  function Render(p: Path): (r: string)
    ensures p.Root? ==> r == ""
    ensures !p.Root? ==> Render(p.parent) <= r
    ensures p.Field? && p.parent.Root? ==> r == p.name
    ensures (p.Entry? || p.Element?) ==> |r| > 0 && r[|r| - 1] == ']'
  {
    match p
    case Root => ""
    case Field(parent, name) =>
      var prefix := Render(parent);
      if |prefix| > 0 then prefix + "." + name else prefix + name
    case Entry(parent, key) => Render(parent) + "[" + key + "]"
    case Element(parent, index) => Render(parent) + "[" + Itoa(index) + "]"
  }

  /** Every node adds at least one character, except a field with an empty name. */
  lemma RenderGrows(p: Path)
    requires !p.Root? && !(p.Field? && p.name == [])
    ensures |Render(p.parent)| < |Render(p)|
  {
  }

  /** The path reached from the root through the given field names. */
  function FieldPath(names: seq<string>): Path {
    if |names| == 0 then Root else Field(FieldPath(names[..|names| - 1]), names[|names| - 1])
  }

  /** A chain of non-empty field names prints as the names joined with dots. */
  lemma {:induction false} FieldPathRendersDotted(names: seq<string>)
    requires forall i :: 0 <= i < |names| ==> names[i] != []
    ensures Render(FieldPath(names)) == Join(names, ".")
  {
    if |names| > 0 {
      var init := names[..|names| - 1];
      FieldPathRendersDotted(init);
      JoinSnoc(init, names[|names| - 1], ".");
      assert init + [names[|names| - 1]] == names;
      if |init| > 0 {
        JoinNonEmpty(init, ".");
      }
    }
  }

  lemma {:induction false} JoinSnoc(parts: seq<string>, last: string, sep: string)
    ensures Join(parts + [last], sep) == if |parts| == 0 then last else Join(parts, sep) + sep + last
  {
    if |parts| > 1 {
      JoinSnoc(parts[1..], last, sep);
      assert (parts + [last])[1..] == parts[1..] + [last];
    } else if |parts| == 1 {
      assert (parts + [last])[1..] == [last];
    }
  }

  lemma {:induction false} JoinNonEmpty(parts: seq<string>, sep: string)
    requires |parts| > 0 && parts[0] != []
    ensures |Join(parts, sep)| > 0
  {
  }
}
