/** The breadcrumb trail shown above a folder in the dashboard: a Home crumb,
    then one crumb per folder on the path, each linking to that folder under
    `/~/`, with the final crumb marked as the last one. */
module Breadcrumbs {

  /** A crumb, `{name, url}`, with `last: true` on the final one (a crumb
      without the property has `last == false` here). */
  datatype Crumb = Crumb(name: string, url: string, last: bool)

  /** `s.split('/')`: the pieces between slashes, empty ones included. */
  function Split(s: string): (parts: seq<string>)
    ensures |parts| >= 1
  {
    if s == [] then [""]
    else if s[0] == '/' then [""] + Split(s[1..])
    else
      var rest := Split(s[1..]);
      [[s[0]] + rest[0]] + rest[1..]
  }

  /** `parts.join('/')`. */
  function Join(parts: seq<string>): (joined: string)
    ensures parts != [] ==> |joined| >= |parts| - 1
  {
    if parts == [] then ""
    else if |parts| == 1 then parts[0]
    else parts[0] + "/" + Join(parts[1..])
  }

  /** `parts.filter(name => !!name)`: drop the empty strings. */
  function NonEmpty(parts: seq<string>): (names: seq<string>)
    ensures |names| <= |parts|
    ensures "" !in names
  {
    if parts == [] then []
    else (if parts[0] == "" then [] else [parts[0]]) + NonEmpty(parts[1..])
  }

  /** The folder names on the path `dir`. */
  function Segments(dir: string): (names: seq<string>)
    ensures dir == "" ==> names == []
  {
    NonEmpty(Split(dir))
  }

  /** A folder name as it can occur in a path: not empty and without a slash. */
  predicate IsName(name: string)
  {
    name != "" && '/' !in name
  }

  /** Joining the pieces of a split gives back the string. */
  lemma {:induction false} JoinSplit(s: string)
    ensures Join(Split(s)) == s
  {
    if s != [] {
      JoinSplit(s[1..]);
      var rest := Split(s[1..]);
      if s[0] == '/' {
        assert s == "/" + s[1..];
      } else if |rest| == 1 {
        assert s == [s[0]] + s[1..];
      } else {
        assert Join(rest) == rest[0] + "/" + Join(rest[1..]);
        var parts := [[s[0]] + rest[0]] + rest[1..];
        assert parts[1..] == rest[1..];
        assert s == [s[0]] + s[1..];
      }
    }
  }

  /** No piece of a split contains a slash. */
  lemma {:induction false} SplitPiecesHaveNoSlash(s: string)
    ensures forall p :: p in Split(s) ==> '/' !in p
  {
    if s != [] {
      SplitPiecesHaveNoSlash(s[1..]);
      var rest := Split(s[1..]);
      if s[0] != '/' {
        assert rest[0] in rest;
        forall p | p in [[s[0]] + rest[0]] + rest[1..] ensures '/' !in p {
          if p != [s[0]] + rest[0] {
            assert p in rest[1..];
            assert p in rest;
          }
        }
      }
    }
  }

  lemma {:induction false} SplitWithoutSlash(s: string)
    requires '/' !in s
    ensures Split(s) == [s]
  {
    if s != [] {
      assert '/' !in s[1..] by {
        forall k | 0 <= k < |s[1..]| ensures s[1..][k] != '/' {
          assert s[1..][k] == s[k + 1];
        }
      }
      SplitWithoutSlash(s[1..]);
      assert s[0] in s;
      assert s == [s[0]] + s[1..];
    }
  }

  /** One unfolding of the split, for a string given as its first character
      and the rest. */
  lemma SplitCons(c: char, t: string)
    ensures Split([c] + t) ==
              if c == '/' then [""] + Split(t)
              else [[c] + Split(t)[0]] + Split(t)[1..]
  {
    assert ([c] + t)[0] == c && ([c] + t)[1..] == t;
  }

  /** Merging a character into the first of some pieces commutes with
      appending more pieces. */
  lemma PrependToFirst(c: char, ra: seq<string>, rb: seq<string>)
    requires |ra| >= 1
    ensures [[c] + (ra + rb)[0]] + (ra + rb)[1..] == ([[c] + ra[0]] + ra[1..]) + rb
  {
    assert (ra + rb)[0] == ra[0];
    assert (ra + rb)[1..] == ra[1..] + rb;
  }

  /** Splitting at a slash splits the two sides apart. */
  lemma {:induction false} SplitAtSlash(a: string, b: string)
    ensures Split(a + "/" + b) == Split(a) + Split(b)
  {
    if a == [] {
      assert a + "/" + b == ['/'] + b;
      SplitCons('/', b);
    } else {
      var c, t := a[0], a[1..];
      assert a == [c] + t;
      assert a + "/" + b == [c] + (t + "/" + b);
      SplitAtSlash(t, b);
      SplitCons(c, t);
      SplitCons(c, t + "/" + b);
      if c != '/' {
        PrependToFirst(c, Split(t), Split(b));
      }
    }
  }

  /** One step of the filter, for a list given as its first name and the rest. */
  lemma NonEmptyCons(p: string, rest: seq<string>)
    ensures NonEmpty([p] + rest) == (if p == "" then [] else [p]) + NonEmpty(rest)
  {
    assert ([p] + rest)[0] == p && ([p] + rest)[1..] == rest;
  }

  lemma {:induction false} NonEmptyConcat(p: seq<string>, q: seq<string>)
    ensures NonEmpty(p + q) == NonEmpty(p) + NonEmpty(q)
  {
    if p == [] {
      assert p + q == q;
    } else {
      var t := p[1..];
      assert p == [p[0]] + t;
      assert p + q == [p[0]] + (t + q);
      NonEmptyConcat(t, q);
      NonEmptyCons(p[0], t);
      NonEmptyCons(p[0], t + q);
      var head := if p[0] == "" then [] else [p[0]];
      assert head + (NonEmpty(t) + NonEmpty(q)) == (head + NonEmpty(t)) + NonEmpty(q);
    }
  }

  lemma {:induction false} NonEmptyMembers(parts: seq<string>)
    ensures forall p :: p in NonEmpty(parts) <==> p in parts && p != ""
  {
    if parts != [] {
      NonEmptyMembers(parts[1..]);
      assert parts == [parts[0]] + parts[1..];
    }
  }

  lemma {:induction false} NonEmptyKeepsNonEmpty(parts: seq<string>)
    requires forall p :: p in parts ==> p != ""
    ensures NonEmpty(parts) == parts
  {
    if parts != [] {
      assert parts[0] in parts;
      assert forall p :: p in parts[1..] ==> p in parts;
      NonEmptyKeepsNonEmpty(parts[1..]);
      assert parts == [parts[0]] + parts[1..];
    }
  }

  /** Every folder name on a path is a proper name. */
  lemma SegmentsAreNames(dir: string)
    ensures forall name :: name in Segments(dir) ==> IsName(name)
  {
    NonEmptyMembers(Split(dir));
    SplitPiecesHaveNoSlash(dir);
  }

  /** The names on `a/b` are those on `a` followed by those on `b`. */
  lemma SegmentsAtSlash(a: string, b: string)
    ensures Segments(a + "/" + b) == Segments(a) + Segments(b)
  {
    SplitAtSlash(a, b);
    NonEmptyConcat(Split(a), Split(b));
  }

  /** A leading slash, a trailing slash, or a slash doubled anywhere does not
      change the folder names. */
  lemma ExtraSlashesIgnored(a: string, b: string)
    ensures Segments("/" + b) == Segments(b)
    ensures Segments(a + "/") == Segments(a)
    ensures Segments(a + "//" + b) == Segments(a + "/" + b)
  {
    assert Segments("/" + b) == Segments(b) by {
      SegmentsAtSlash("", b);
      assert "" + "/" + b == "/" + b;
    }
    assert Segments(a + "/") == Segments(a) by {
      SegmentsAtSlash(a, "");
      assert a + "/" + "" == a + "/";
    }
    assert Segments(a + "//" + b) == Segments(a + "/" + b) by {
      SegmentsAtSlash(a, "/" + b);
      assert a + "/" + ("/" + b) == a + "//" + b;
      SegmentsAtSlash(a, b);
    }
  }

  lemma {:induction false} SplitJoin(names: seq<string>)
    requires names != []
    requires forall name :: name in names ==> '/' !in name
    ensures Split(Join(names)) == names
  {
    if |names| == 1 {
      SplitWithoutSlash(names[0]);
    } else {
      assert names[0] in names;
      assert forall name :: name in names[1..] ==> name in names;
      SplitJoin(names[1..]);
      SplitAtSlash(names[0], Join(names[1..]));
      SplitWithoutSlash(names[0]);
      assert names == [names[0]] + names[1..];
    }
  }

  /** Reading the folder names back from joined names gives those names. */
  lemma SegmentsOfJoin(names: seq<string>)
    requires forall name :: name in names ==> IsName(name)
    ensures Segments(Join(names)) == names
  {
    if names == [] {
      assert Segments("") == [];
    } else {
      SplitJoin(names);
      NonEmptyKeepsNonEmpty(names);
    }
  }

  /** Joining one more name extends the joined string by a slash and that name. */
  lemma {:induction false} JoinAppend(names: seq<string>, name: string)
    requires names != []
    ensures Join(names + [name]) == Join(names) + "/" + name
  {
    if |names| > 1 {
      JoinAppend(names[1..], name);
      assert (names + [name])[1..] == names[1..] + [name];
    }
  }

  /** The link of the crumb for `names[i]`: `/~/` and the names up to it. */
  function UrlOf(names: seq<string>, i: nat): (url: string)
    requires i < |names|
    ensures |url| >= 3 && url[..3] == "/~/"
  {
    "/~/" + Join(names[..i + 1])
  }

  /** The link of a folder's crumb names exactly the folders up to it, and
      extends the link of the folder above by a slash and its own name. */
  lemma UrlOfFacts(names: seq<string>, i: nat)
    requires forall name :: name in names ==> IsName(name)
    requires i < |names|
    ensures |UrlOf(names, i)| >= 3 && UrlOf(names, i)[..3] == "/~/"
    ensures Segments(UrlOf(names, i)[3..]) == names[..i + 1]
    ensures i > 0 ==> UrlOf(names, i) == UrlOf(names, i - 1) + "/" + names[i]
  {
    var url, prefix := UrlOf(names, i), names[..i + 1];
    assert Segments(url[3..]) == prefix by {
      assert url[3..] == Join(prefix);
      assert forall name :: name in prefix ==> name in names;
      SegmentsOfJoin(prefix);
    }
    if i > 0 {
      assert prefix == names[..i] + [names[i]];
      JoinAppend(names[..i], names[i]);
    }
  }

  /** `crumbs` is the trail for `names`: Home first, then a crumb per name
      with its link, and only the final crumb marked last. */
  ghost predicate IsTrail(names: seq<string>, crumbs: seq<Crumb>)
  {
    |crumbs| == |names| + 1
    && crumbs[0].name == "Home" && crumbs[0].url == "/"
    && (forall k :: 0 <= k < |names| ==>
          crumbs[k + 1].name == names[k] && crumbs[k + 1].url == UrlOf(names, k))
    && (forall k :: 0 <= k < |crumbs| ==> (crumbs[k].last <==> k == |crumbs| - 1))
  }

  /** In the trail for proper names, each folder crumb links to exactly the
      folders up to it, and each folder link extends the one before. */
  lemma TrailLinks(names: seq<string>, crumbs: seq<Crumb>)
    requires forall name :: name in names ==> IsName(name)
    requires IsTrail(names, crumbs)
    ensures forall i :: 1 <= i < |crumbs| ==>
              IsName(crumbs[i].name)
              && |crumbs[i].url| >= 3 && crumbs[i].url[..3] == "/~/"
              && Segments(crumbs[i].url[3..]) == names[..i]
    ensures forall i :: 1 <= i < |crumbs| - 1 ==>
              crumbs[i + 1].url == crumbs[i].url + "/" + crumbs[i + 1].name
  {
    forall i | 1 <= i < |crumbs|
      ensures IsName(crumbs[i].name)
      ensures |crumbs[i].url| >= 3 && crumbs[i].url[..3] == "/~/"
      ensures Segments(crumbs[i].url[3..]) == names[..i]
      ensures i < |crumbs| - 1 ==> crumbs[i + 1].url == crumbs[i].url + "/" + crumbs[i + 1].name
    {
      assert names[i - 1] in names;
      UrlOfFacts(names, i - 1);
      if i < |crumbs| - 1 {
        UrlOfFacts(names, i);
      }
    }
  }

  /** The exported builder: a Home crumb, a crumb per folder name linking to
      `/~/` and the names up to it, and the final crumb marked last. */
  method Breadcrumbs(dir: string) returns (crumbs: seq<Crumb>)
    ensures |crumbs| == |Segments(dir)| + 1
    ensures crumbs[0].name == "Home" && crumbs[0].url == "/"
    ensures forall i :: 0 <= i < |Segments(dir)| ==>
              crumbs[i + 1].name == Segments(dir)[i] && crumbs[i + 1].url == UrlOf(Segments(dir), i)
    ensures forall i :: 1 <= i < |crumbs| ==>
              IsName(crumbs[i].name)
              && |crumbs[i].url| >= 3 && crumbs[i].url[..3] == "/~/"
              && Segments(crumbs[i].url[3..]) == Segments(dir)[..i]
    ensures forall i :: 1 <= i < |crumbs| - 1 ==>
              crumbs[i + 1].url == crumbs[i].url + "/" + crumbs[i + 1].name
    ensures forall i :: 0 <= i < |crumbs| ==> (crumbs[i].last <==> i == |crumbs| - 1)
  {
    var names := Segments(dir);
    crumbs := [Crumb("Home", "/", false)];
    for i := 0 to |names|
      invariant |crumbs| == i + 1
      invariant crumbs[0] == Crumb("Home", "/", false)
      invariant forall k :: 0 <= k < i ==> crumbs[k + 1] == Crumb(names[k], UrlOf(names, k), false)
      invariant forall k :: 0 <= k <= i ==> !crumbs[k].last
    {
      crumbs := crumbs + [Crumb(names[i], UrlOf(names, i), false)];
    }
    var n := |crumbs| - 1;
    crumbs := crumbs[n := crumbs[n].(last := true)];
    assert IsTrail(names, crumbs);
    SegmentsAreNames(dir);
    TrailLinks(names, crumbs);
  }
}
