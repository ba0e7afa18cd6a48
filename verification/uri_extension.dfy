/**
  `UriExtension.Append` (UriExtension.cs): append path segments to a base URI by
  folding them in from left to right, trimming the slashes on both sides of each
  join and putting exactly one '/' between. The model works on the text of the
  base's `AbsoluteUri`; the final `new Uri(...)` parse is not modelled.
 */
module UriExtension {

  /** `s.TrimEnd('/')`. */
  function TrimEnd(s: string): (r: string)
    ensures |r| <= |s| && r == s[..|r|]
    ensures forall k :: |r| <= k < |s| ==> s[k] == '/'
    ensures |r| > 0 ==> r[|r| - 1] != '/'
    decreases |s|
  {
    if |s| > 0 && s[|s| - 1] == '/' then TrimEnd(s[..|s| - 1]) else s
  }

  /** `s.TrimStart('/')`. */
  function TrimStart(s: string): (r: string)
    ensures |r| <= |s| && r == s[|s| - |r|..]
    ensures forall k :: 0 <= k < |s| - |r| ==> s[k] == '/'
    ensures |r| > 0 ==> r[0] != '/'
  {
    if |s| > 0 && s[0] == '/' then TrimStart(s[1..]) else s
  }

  /** One step of the fold: `string.Format("{0}/{1}", current.TrimEnd('/'), path.TrimStart('/'))`. */
  function Step(current: string, path: string): (r: string)
    ensures var head := TrimEnd(current);
      var tail := TrimStart(path);
      |r| == |head| + 1 + |tail| && r[|head|] == '/'
      && (|head| > 0 ==> r[|head| - 1] != '/')
      && (|tail| > 0 ==> r[|head| + 1] != '/')
  {
    TrimEnd(current) + "/" + TrimStart(path)
  }

  /** `paths.Aggregate(seed, Step)`, as LINQ evaluates it: the first path first. */
  function Aggregate(seed: string, paths: seq<string>): string
    decreases |paths|
  {
    if |paths| == 0 then seed else Aggregate(Step(seed, paths[0]), paths[1..])
  }

  /** `uri.Append(paths)` on the text of `uri.AbsoluteUri`. */
  function Append(absoluteUri: string, paths: seq<string>): (r: string)
    ensures |paths| == 0 ==> r == absoluteUri
  {
    Aggregate(absoluteUri, paths)
  }

  /** The paths are applied left to right: appending one more path is one more step on the result. */
  lemma {:induction false} AppendSnoc(absoluteUri: string, paths: seq<string>, p: string)
    ensures Append(absoluteUri, paths + [p]) == Step(Append(absoluteUri, paths), p)
  {
    AggregateSnoc(absoluteUri, paths, p);
  }

  lemma {:induction false} AggregateSnoc(seed: string, paths: seq<string>, p: string)
    ensures Aggregate(seed, paths + [p]) == Step(Aggregate(seed, paths), p)
    decreases |paths|
  {
    if |paths| == 0 {
      assert paths + [p] == [p];
    } else {
      assert (paths + [p])[1..] == paths[1..] + [p];
      AggregateSnoc(Step(seed, paths[0]), paths[1..], p);
    }
  }

  /** `n` slashes. */
  function Slashes(n: nat): (r: string)
    ensures |r| == n && forall k :: 0 <= k < n ==> r[k] == '/'
  {
    if n == 0 then "" else "/" + Slashes(n - 1)
  }

  lemma {:induction false} TrimEndSlashes(s: string, n: nat)
    ensures TrimEnd(s + Slashes(n)) == TrimEnd(s)
    decreases n
  {
    if n == 0 {
      assert s + Slashes(n) == s;
    } else {
      var t := s + Slashes(n);
      assert t[|t| - 1] == Slashes(n)[n - 1];
      assert t[..|t| - 1] == s + Slashes(n - 1) by {
        assert Slashes(n) == Slashes(n - 1) + "/" by {
          SlashesSnoc(n - 1);
        }
      }
      TrimEndSlashes(s, n - 1);
    }
  }

  lemma {:induction false} SlashesSnoc(n: nat)
    ensures Slashes(n + 1) == Slashes(n) + "/"
    decreases n
  {
    if n > 0 {
      SlashesSnoc(n - 1);
    }
  }

  lemma {:induction false} TrimStartSlashes(s: string, n: nat)
    ensures TrimStart(Slashes(n) + s) == TrimStart(s)
    decreases n
  {
    if n == 0 {
      assert Slashes(n) + s == s;
    } else {
      var t := Slashes(n) + s;
      assert t == "/" + (Slashes(n - 1) + s);
      assert t[0] == '/' && t[1..] == Slashes(n - 1) + s;
      TrimStartSlashes(s, n - 1);
      assert TrimStart(t) == TrimStart(t[1..]);
    }
  }

  /** However many slashes meet at a join, exactly one separates the two sides. */
  lemma SlashRunsCollapse(current: string, path: string, trailing: nat, leading: nat)
    ensures Step(current + Slashes(trailing), Slashes(leading) + path) == Step(current, path)
  {
    TrimEndSlashes(current, trailing);
    TrimStartSlashes(path, leading);
  }

  /** The documented example: "https://example.com/api" with "users", "123". */
  lemma DocumentedExample()
    ensures Append("https://example.com/api", ["users", "123"]) == "https://example.com/api/users/123"
  {
    var paths := ["users", "123"];
    AppendSnoc("https://example.com/api", paths[..1], "123");
    assert paths[..1] + ["123"] == paths;
    AppendSnoc("https://example.com/api", [], "users");
    assert [] + ["users"] == paths[..1];
  }
}
