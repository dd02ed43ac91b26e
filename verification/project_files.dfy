/** Paths, the file system and XML trees as the conversion context sees
    them. Paths are system-independent strings with `/` separators. */
module ProjectFiles {
  import opened Wrappers

  type Path = string

  predicate StartsWith(s: string, prefix: string) {
    |prefix| <= |s| && s[..|prefix|] == prefix
  }

  predicate EndsWith(s: string, suffix: string) {
    |suffix| <= |s| && s[|s| - |suffix|..] == suffix
  }

  /** `StringUtil.trimEnd`: drops `suffix` from the end of `s` when present. */
  function TrimEnd(s: string, suffix: string): (r: string)
    ensures EndsWith(s, suffix) ==> r + suffix == s
    ensures !EndsWith(s, suffix) ==> r == s
  {
    if EndsWith(s, suffix) then
      assert s[..|s| - |suffix|] + s[|s| - |suffix|..] == s;
      s[..|s| - |suffix|]
    else s
  }

  /** Trimming a suffix that was appended gives back the original. */
  lemma TrimEndAppended(s: string, suffix: string)
    ensures TrimEnd(s + suffix, suffix) == s
  {
    assert (s + suffix)[|s + suffix| - |suffix|..] == suffix;
    assert (s + suffix)[..|s + suffix| - |suffix|] == s;
  }

  /** Index of the last `/` in `p`, if any. */
  function LastSlash(p: Path): (r: Option<nat>)
    ensures r.Some? ==> r.value < |p| && p[r.value] == '/' && '/' !in p[r.value + 1..]
    ensures r.None? ==> '/' !in p
  {
    if |p| == 0 then None
    else if p[|p| - 1] == '/' then Some(|p| - 1)
    else
      var r := LastSlash(p[..|p| - 1]);
      assert p == p[..|p| - 1] + [p[|p| - 1]];
      if r.Some? then
        assert p[r.value + 1..] == p[..|p| - 1][r.value + 1..] + [p[|p| - 1]];
        r
      else r
  }

  /** A directory path in normal form: the root, or no trailing `/`. */
  predicate NormalDir(dir: Path) {
    dir == "/" || (|dir| > 0 && dir[|dir| - 1] != '/')
  }

  /** A single path component. */
  predicate IsName(name: string) {
    |name| > 0 && '/' !in name
  }

  /** `Path.resolve` of a single name against a directory. */
  function Resolve(dir: Path, name: string): Path {
    if dir == "/" then dir + name else dir + "/" + name
  }

  /** `Path.getParent`: null for a path without a directory part. */
  function Parent(p: Path): Option<Path> {
    match LastSlash(p)
    case None => None
    case Some(i) => if i == 0 then Some("/") else Some(p[..i])
  }

  /** `File.getName`: the last path component. */
  function FileName(p: Path): string {
    match LastSlash(p)
    case None => p
    case Some(i) => p[i + 1..]
  }

  /** Resolving a name and taking the parent and the name back apart are
      inverse. */
  lemma ResolveParts(dir: Path, name: string)
    requires NormalDir(dir) && IsName(name)
    ensures Parent(Resolve(dir, name)) == Some(dir)
    ensures FileName(Resolve(dir, name)) == name
  {
    var p := Resolve(dir, name);
    var i := |p| - |name| - 1;
    assert p[i] == '/' && p[i + 1..] == name;
    assert p[..i] == dir || (dir == "/" && i == 0);
    LastSlashAt(p, i);
  }

  /** The last `/` is the one no later `/` follows. */
  lemma LastSlashAt(p: Path, i: nat)
    requires i < |p| && p[i] == '/' && '/' !in p[i + 1..]
    ensures LastSlash(p) == Some(i)
  {
    assert p[i] in p;
  }

  /** A node of an XML document: its tag, attributes and child elements. */
  datatype Element = Element(name: string, attributes: map<string, string>, children: seq<Element>)

  /** `Element.getAttributeValue`: null when the attribute is absent. */
  function Attribute(e: Element, attr: string): (r: Option<string>)
    ensures r.Some? <==> attr in e.attributes
    ensures r.Some? ==> r.value == e.attributes[attr]
  {
    if attr in e.attributes then Some(e.attributes[attr]) else None
  }

  /** `Element.getChildren(name)`: the children with that tag, in order. */
  function GetChildren(e: Element, name: string): (r: seq<Element>)
    ensures forall i | 0 <= i < |r| :: r[i].name == name && r[i] in e.children
    ensures forall i | 0 <= i < |e.children| && e.children[i].name == name :: e.children[i] in r
  {
    ChildrenNamed(e.children, name)
  }

  function ChildrenNamed(children: seq<Element>, name: string): (r: seq<Element>)
    ensures forall i | 0 <= i < |r| :: r[i].name == name && r[i] in children
    ensures forall i | 0 <= i < |children| && children[i].name == name :: children[i] in r
  {
    if |children| == 0 then []
    else
      var rest := ChildrenNamed(children[1..], name);
      assert forall i | 1 <= i < |children| :: children[i] == children[1..][i - 1];
      if children[0].name == name then [children[0]] + rest else rest
  }

  /** First element of `elements` satisfying `test`. */
  function FindFirst(elements: seq<Element>, test: Element -> bool): (r: Option<Element>)
    ensures r.Some? ==> test(r.value) && r.value in elements
    ensures r.None? <==> forall i | 0 <= i < |elements| :: !test(elements[i])
    ensures r.Some? ==> exists i | 0 <= i < |elements| :: elements[i] == r.value
                                   && forall j | 0 <= j < i :: !test(elements[j])
  {
    if |elements| == 0 then None
    else if test(elements[0]) then Some(elements[0])
    else
      var r := FindFirst(elements[1..], test);
      assert forall i | 1 <= i < |elements| :: elements[i] == elements[1..][i - 1];
      if r.Some? then
        var i :| 0 <= i < |elements[1..]| && elements[1..][i] == r.value
                 && forall j | 0 <= j < i :: !test(elements[1..][j]);
        assert elements[i + 1] == r.value;
        r
      else r
  }

  /** `Element.getChild(name)`: the first child with that tag. */
  function GetChild(e: Element, name: string): (r: Option<Element>)
    ensures r.None? <==> forall i | 0 <= i < |e.children| :: e.children[i].name != name
    ensures r.Some? ==> r.value.name == name && r.value in e.children
  {
    FindFirst(e.children, (c: Element) => c.name == name)
  }

  /** `createElementWithAttributeFilter`: the tag is `name` and `attr` is
      present with `value`. */
  predicate HasTagAndAttribute(e: Element, name: string, attr: string, value: string) {
    e.name == name && Attribute(e, attr) == Some(value)
  }

  /** `JDomSerializationUtil.findComponent`: the first `component` child whose
      `name` attribute is `componentName`. */
  function FindComponent(root: Element, componentName: string): (r: Option<Element>)
    ensures r.Some? ==> HasTagAndAttribute(r.value, "component", "name", componentName) && r.value in root.children
    ensures r.None? <==> forall i | 0 <= i < |root.children| ::
                           !HasTagAndAttribute(root.children[i], "component", "name", componentName)
  {
    FindFirst(root.children, (c: Element) => HasTagAndAttribute(c, "component", "name", componentName))
  }

  /** What the conversion context can observe of the disk. */
  datatype FileSystem = FileSystem(
    directories: set<Path>,
    regularFiles: set<Path>,
    /** `File.listFiles`: the entries of a directory; null when it cannot be listed. */
    listing: Path -> Option<seq<Path>>)
  {
    predicate Exists(p: Path) {
      p in directories || p in regularFiles
    }
  }
}
