/** Merging an aufs layer into a base file system (src/utils/updatebase.py): whiteouts, opaque directories and
    clashes between files and directories. */
module UpdateBase {
  import opened Sequences

  /** A file name. */
  datatype Name = Name(text: string)

  /** A plain file or a directory. */
  datatype Tree = File(data: int) | Dir(kids: map<Name, Tree>)

  type Entries = map<Name, Tree>

  const OPAQUE: Name := Name(".wh..wh..opq")

  predicate IsMark(n: Name) {
    |n.text| >= 4 && n.text[..4] == ".wh."
  }

  /** Marks that aufs keeps for itself. */
  predicate IsOwnMark(n: Name) {
    |n.text| >= 7 && n.text[..7] == ".wh..wh"
  }

  function Target(n: Name): Name
    requires IsMark(n)
  {
    Name(n.text[4..])
  }

  function Whiteout(n: Name): Name {
    Name(".wh." + n.text)
  }

  /** The code takes whiteouts of names like this one for marks of aufs itself. */
  predicate LooksLikeMark(n: Name) {
    |n.text| >= 3 && n.text[..3] == ".wh"
  }

  lemma WhiteoutFacts(n: Name)
    ensures IsMark(Whiteout(n)) && Target(Whiteout(n)) == n
    ensures IsOwnMark(Whiteout(n)) <==> LooksLikeMark(n)
  {
    var w := Whiteout(n).text;
    assert w[..4] == ".wh." && w[4..] == n.text;
    if |w| >= 7 {
      assert w[..7] == ".wh." + n.text[..3];
      assert ".wh..wh" == ".wh." + ".wh";
      assert ".wh..wh"[4..] == ".wh" && w[..7][4..] == n.text[..3];
    }
  }

  lemma MarkFacts(n: Name)
    requires IsMark(n)
    ensures Whiteout(Target(n)) == n
  {
    assert n.text == n.text[..4] + n.text[4..];
  }

  /** What os.listdir answers for a directory: any order of its names. */
  type Listing = Entries -> seq<Name>

  ghost predicate Lists(list: Listing) {
    forall d :: Enumerates(list(d), d.Keys)
  }

  // ----- the procedures

  /** aufs_clean */
  function Clean(base: Entries): Entries {
    map n | n in base && !IsMark(n) :: base[n]
  }

  /** One entry of the image. */
  function MergeOne(list: Listing, image: Tree, base: Entries, n: Name): Entries
    requires image.Dir? && n in image.kids
    decreases image, 0
  {
    if IsOwnMark(n) then base
    else if IsMark(n) then base - {Target(n)}
    else if image.kids[n].Dir? && n in base && base[n].Dir? then
      base[n := Dir(Merge(list, image.kids[n], base[n].kids))]
    else base[n := image.kids[n]]
  }

  function MergeNames(list: Listing, image: Tree, names: seq<Name>, base: Entries): Entries
    requires image.Dir?
    decreases image, |names|
  {
    if names == [] then base
    else if names[0] !in image.kids then MergeNames(list, image, names[1..], base)
    else MergeNames(list, image, names[1..], MergeOne(list, image, base, names[0]))
  }

  /** What aufs_merge makes of the base directory. */
  function Merge(list: Listing, image: Tree, base: Entries): Entries
    requires image.Dir?
    decreases image, |list(image.kids)| + 1
  {
    if OPAQUE in image.kids then Clean(image.kids)
    else MergeNames(list, image, list(image.kids), base)
  }

  /** Every whiteout names a file: deleting "", "." or ".." is not merging. */
  predicate Proper(image: Tree) {
    image.Dir? ==>
      && Whiteout(Name("")) !in image.kids && Whiteout(Name(".")) !in image.kids && Whiteout(Name("..")) !in image.kids
      && forall n :: n in image.kids ==> Proper(image.kids[n])
  }

  method AufsMerge(list: Listing, image: Tree, base: Entries) returns (merged: Entries)
    requires image.Dir? && Proper(image) && Lists(list)
    ensures merged == Merge(list, image, base)
    decreases image
  {
    if OPAQUE in image.kids {
      return Clean(image.kids);
    }
    merged := base;
    var names := list(image.kids);
    Enumerated(names, image.kids.Keys);
    for i := 0 to |names|
      invariant MergeNames(list, image, names[i..], merged) == MergeNames(list, image, names, base)
    {
      var n := names[i];
      assert names[i..][0] == n && names[i..][1..] == names[i + 1..];
      if IsOwnMark(n) {
        continue;
      } else if IsMark(n) {
        merged := merged - {Target(n)};
      } else if image.kids[n].Dir? {
        if n in merged && merged[n].Dir? {
          var sub := AufsMerge(list, image.kids[n], merged[n].kids);
          merged := merged[n := Dir(sub)];
        } else {
          merged := merged[n := image.kids[n]];
        }
      } else {
        merged := merged[n := image.kids[n]];
      }
    }
  }

  lemma {:induction false} Enumerated(list: seq<Name>, names: set<Name>)
    requires Enumerates(list, names)
    ensures forall i :: 0 <= i < |list| ==> list[i] in names
    decreases |list|
  {
    if list != [] {
      Enumerated(list[1..], names - {list[0]});
      forall i | 0 <= i < |list|
        ensures list[i] in names
      {
        assert i > 0 ==> list[i] == list[1..][i - 1];
      }
    }
  }

  // ----- the union of two layers

  datatype Kind = AFile(data: int) | ADir

  /** What is found at a path. */
  function Read(d: Entries, path: seq<Name>): Option<Kind>
    decreases |path|
  {
    if path == [] then Some(ADir)
    else if path[0] !in d then None
    else match d[path[0]]
      case File(data) => if |path| == 1 then Some(AFile(data)) else None
      case Dir(kids) => Read(kids, path[1..])
  }

  /** Looking a path up in a stack of the image over the base, without merging them. */
  function ReadUnion(image: Entries, base: Entries, path: seq<Name>): Option<Kind>
    decreases |path|
  {
    if path == [] then Some(ADir)
    else
      var n := path[0];
      if OPAQUE in image then Read(image, path)
      else if n in image then
        if image[n].Dir? && n in base && base[n].Dir? then ReadUnion(image[n].kids, base[n].kids, path[1..])
        else Read(image, path)
      else if Whiteout(n) in image then None
      else Read(base, path)
  }

  ghost predicate Ordinary(path: seq<Name>) {
    path == [] || (!IsMark(path[0]) && Ordinary(path[1..]))
  }

  /** The image gives no name together with its own whiteout, and whites out no name of the base that looks like
      a mark, in any directory in which image and base meet. */
  ghost predicate Faithful(image: Tree, base: Entries)
    requires image.Dir?
    decreases image
  {
    || OPAQUE in image.kids
    || forall n :: !IsMark(n) ==> FaithfulAt(image, base, n)
  }

  ghost predicate FaithfulAt(image: Tree, base: Entries, n: Name)
    requires image.Dir?
    decreases image, 0
  {
    && (Whiteout(n) in image.kids && !LooksLikeMark(n) ==> n !in image.kids)
    && (Whiteout(n) in image.kids && LooksLikeMark(n) && n !in image.kids ==> n !in base)
    && (n in image.kids && image.kids[n].Dir? && n in base && base[n].Dir? ==> Faithful(image.kids[n], base[n].kids))
  }

  // ----- merging one directory

  function Get(d: Entries, n: Name): Option<Tree> {
    if n in d then Some(d[n]) else None
  }

  /** What an entry of the image makes of the entry of the same name. */
  function Over(list: Listing, image: Tree, base: Option<Tree>): Tree {
    if image.Dir? && base.Some? && base.value.Dir? then Dir(Merge(list, image, base.value.kids)) else image
  }

  ghost predicate Removes(names: set<Name>, n: Name) {
    Whiteout(n) in names && !LooksLikeMark(n)
  }

  /** Only the entry of a name and its whiteout change what is at the name. */
  lemma OneEntry(list: Listing, image: Tree, base: Entries, m: Name, n: Name)
    requires image.Dir? && m in image.kids && !IsMark(n)
    ensures var after := MergeOne(list, image, base, m);
      Get(after, n) == if m == n then Some(Over(list, image.kids[n], Get(base, n)))
                       else if m == Whiteout(n) && !LooksLikeMark(n) then None
                       else Get(base, n)
  {
    WhiteoutFacts(n);
    if IsMark(m) {
      MarkFacts(m);
    }
  }

  /** The entries of the names in `names`, in the order of the list. */
  lemma {:induction false} SomeEntries(list: Listing, image: Tree, order: seq<Name>, names: set<Name>, base: Entries,
                                       n: Name)
    requires image.Dir? && Enumerates(order, names) && names <= image.kids.Keys && !IsMark(n)
    ensures var after := MergeNames(list, image, order, base);
      && (n !in names && !Removes(names, n) ==> Get(after, n) == Get(base, n))
      && (n in names && !Removes(names, n) ==> Get(after, n) == Some(Over(list, image.kids[n], Get(base, n))))
      && (n !in names && Removes(names, n) ==> Get(after, n) == None)
      && (n in names && Removes(names, n) && order[0] == n ==> Get(after, n) == None)
    decreases |order|
  {
    WhiteoutFacts(n);
    if order != [] {
      OneEntry(list, image, base, order[0], n);
      SomeEntries(list, image, order[1..], names - {order[0]}, MergeOne(list, image, base, order[0]), n);
    }
  }

  // ----- the main results

  /** A path is found in the merged base exactly as it is found in the union, for any order of the listings. */
  lemma {:induction false} MergeIsUnion(list: Listing, image: Tree, base: Entries, path: seq<Name>)
    requires image.Dir? && Lists(list) && Faithful(image, base) && Ordinary(path)
    ensures Read(Merge(list, image, base), path) == ReadUnion(image.kids, base, path)
    decreases |path|
  {
    if path != [] {
      var n := path[0];
      if OPAQUE !in image.kids {
        assert FaithfulAt(image, base, n);
        assert Enumerates(list(image.kids), image.kids.Keys);
        SomeEntries(list, image, list(image.kids), image.kids.Keys, base, n);
        if n in image.kids && image.kids[n].Dir? && n in base && base[n].Dir? {
          MergeIsUnion(list, image.kids[n], base[n].kids, path[1..]);
        }
      }
    }
  }

  // ----- the marks

  /** The name of a mark is touched by no entry: a whiteout of it is taken for a mark of aufs. */
  lemma OneMark(list: Listing, image: Tree, base: Entries, m: Name, n: Name)
    requires image.Dir? && m in image.kids && IsMark(n)
    ensures Get(MergeOne(list, image, base, m), n) == Get(base, n)
  {
    if IsMark(m) && Target(m) == n {
      MarkFacts(m);
      WhiteoutFacts(n);
      assert n.text[..3] == n.text[..4][..3] == ".wh";
      assert IsOwnMark(m);
    }
  }

  lemma {:induction false} SomeMarks(list: Listing, image: Tree, names: seq<Name>, base: Entries, n: Name)
    requires image.Dir? && IsMark(n)
    ensures Get(MergeNames(list, image, names, base), n) == Get(base, n)
    decreases |names|
  {
    if names != [] {
      if names[0] in image.kids {
        OneMark(list, image, base, names[0], n);
        SomeMarks(list, image, names[1..], MergeOne(list, image, base, names[0]), n);
      } else {
        SomeMarks(list, image, names[1..], base, n);
      }
    }
  }

  /** No mark of the image comes into the merged directory, and those of the base stay, unless the directory of the
      image is opaque. */
  lemma MarksStay(list: Listing, image: Tree, base: Entries, n: Name)
    requires image.Dir? && IsMark(n)
    ensures Get(Merge(list, image, base), n) == if OPAQUE in image.kids then None else Get(base, n)
  {
    if OPAQUE !in image.kids {
      SomeMarks(list, image, list(image.kids), base, n);
    }
  }

  /** As ReadUnion, for paths with marks as well: in a directory in which image and base meet the base's marks count, in
      an opaque one none, and below a directory that is copied all those of the copy. */
  function ReadWithMarks(image: Entries, base: Entries, path: seq<Name>): Option<Kind>
    decreases |path|
  {
    if path == [] then Some(ADir)
    else
      var n := path[0];
      if IsMark(n) then if OPAQUE in image then None else Read(base, path)
      else if OPAQUE !in image && n in image && image[n].Dir? && n in base && base[n].Dir? then
        ReadWithMarks(image[n].kids, base[n].kids, path[1..])
      else ReadUnion(image, base, path)
  }

  /** Every path, ordinary or not. */
  lemma {:induction false} MergeWithMarks(list: Listing, image: Tree, base: Entries, path: seq<Name>)
    requires image.Dir? && Lists(list) && Faithful(image, base)
    ensures Read(Merge(list, image, base), path) == ReadWithMarks(image.kids, base, path)
    decreases |path|
  {
    if path != [] {
      var n := path[0];
      if IsMark(n) {
        MarksStay(list, image, base, n);
      } else if OPAQUE !in image.kids {
        assert FaithfulAt(image, base, n);
        assert Enumerates(list(image.kids), image.kids.Keys);
        SomeEntries(list, image, list(image.kids), image.kids.Keys, base, n);
        if n in image.kids && image.kids[n].Dir? && n in base && base[n].Dir? {
          MergeWithMarks(list, image.kids[n], base[n].kids, path[1..]);
        }
      }
    }
  }

  ghost function Order(names: set<Name>): (list: seq<Name>)
    ensures Enumerates(list, names)
  {
    if names == {} then []
    else
      var n :| n in names;
      var list := [n] + Order(names - {n});
      assert list[1..] == Order(names - {n});
      list
  }

  /** Some listing puts the name first. */
  ghost function FirstOf(n: Name, names: set<Name>): (list: seq<Name>)
    ensures Enumerates(list, names)
    ensures n in names ==> list != [] && list[0] == n
  {
    if n !in names then Order(names)
    else
      var list := [n] + Order(names - {n});
      assert list[1..] == Order(names - {n});
      list
  }

  /** Otherwise some listing loses or keeps a path wrongly. */
  lemma {:induction false} MergeIsNotUnion(image: Tree, base: Entries) returns (list: Listing, path: seq<Name>)
    requires image.Dir? && !Faithful(image, base)
    ensures Lists(list) && Ordinary(path)
    ensures Read(Merge(list, image, base), path) != ReadUnion(image.kids, base, path)
    decreases image
  {
    var n :| !IsMark(n) && !FaithfulAt(image, base, n);
    WhiteoutFacts(n);
    var names := image.kids.Keys;
    if Removes(names, n) && n in names {
      list, path := ((d: Entries) => FirstOf(n, d.Keys)), [n];
      SomeEntries(list, image, list(image.kids), names, base, n);
      assert Get(Merge(list, image, base), n) == None && path[1..] == [];
      assert Read(Merge(list, image, base), path) == None;
      assert Read(image.kids, path) != None;
      assert ReadUnion(image.kids, base, path) != None;
    } else if Whiteout(n) in names && n !in names {
      list, path := ((d: Entries) => Order(d.Keys)), [n];
      SomeEntries(list, image, list(image.kids), names, base, n);
      assert Get(Merge(list, image, base), n) == Get(base, n) && path[1..] == [];
      assert Read(Merge(list, image, base), path) != None;
      assert ReadUnion(image.kids, base, path) == None;
    } else {
      var rest;
      list, rest := MergeIsNotUnion(image.kids[n], base[n].kids);
      path := [n] + rest;
      assert path[1..] == rest;
      assert Enumerates(list(image.kids), names);
      SomeEntries(list, image, list(image.kids), names, base, n);
      assert Get(Merge(list, image, base), n) == Some(Over(list, image.kids[n], Get(base, n)));
      assert Read(Merge(list, image, base), path) == Read(Merge(list, image.kids[n], base[n].kids), rest);
      assert ReadUnion(image.kids, base, path) == ReadUnion(image.kids[n].kids, base[n].kids, rest);
    }
  }

  /** Exactly when merging is taking the union. */
  lemma MergeIsUnionIff(image: Tree, base: Entries)
    requires image.Dir?
    ensures Faithful(image, base) <==>
            forall list, path :: Lists(list) && Ordinary(path) ==>
              Read(Merge(list, image, base), path) == ReadUnion(image.kids, base, path)
  {
    if Faithful(image, base) {
      forall list, path | Lists(list) && Ordinary(path)
        ensures Read(Merge(list, image, base), path) == ReadUnion(image.kids, base, path)
      {
        MergeIsUnion(list, image, base, path);
      }
    } else {
      var list, path := MergeIsNotUnion(image, base);
    }
  }
}
