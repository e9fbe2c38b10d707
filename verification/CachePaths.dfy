/** Which file a cache path names.  scripts/check_references.py builds the path of
    an entry from its slug as pathlib does, and the schema asks nothing of a slug
    but that it is not blank. */
module CachePaths {
  import opened Text

  type File = nat

  // The components pathlib keeps: it drops empty ones and single dots.
  function Kept(components: seq<string>): seq<string> {
    if components == [] then []
    else if components[0] == "" || components[0] == "." then Kept(components[1..])
    else [components[0]] + Kept(components[1..])
  }

  datatype Path = Path(absolute: bool, components: seq<string>)

  function PathOf(spelled: string): Path {
    Path("/" <= spelled, Kept(Split(spelled, '/')))
  }

  // One component, which is no directory reference.
  predicate IsPlainName(name: string) {
    name != "" && name != "." && name != ".." && Without(name, '/')
  }

  // What the file system is relied on for: a path names its file through its
  // components, and different plain names are different files.
  ghost predicate NamesFiles(file: string -> File) {
    && (forall p, q | PathOf(p) == PathOf(q) :: file(p) == file(q))
    && (forall p, q | IsPlainName(p) && IsPlainName(q) && p != q :: file(p) != file(q))
  }

  // A leading `./` changes nothing.
  lemma DotSlash(name: string)
    requires !("/" <= name)
    ensures PathOf("./" + name) == PathOf(name)
  {
    SplitConcat(".", name, '/');
    SplitWithout(".", '/');
    assert "." + ['/'] + name == "./" + name;
    assert ["."] + Split(name, '/') == Split("./" + name, '/');
    assert (["."] + Split(name, '/'))[1..] == Split(name, '/');
  }
}
