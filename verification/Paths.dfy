/** The path functions of file.c and inode.c. */
module Paths {
  import opened Wrappers

  const DIRNAME_MAX_LEN := 13

  predicate IsAlnum(c: char) {
    '0' <= c <= '9' || 'A' <= c <= 'Z' || 'a' <= c <= 'z'
  }

  // A name of a directory entry.
  ghost predicate IsName(s: string) {
    1 <= |s| <= DIRNAME_MAX_LEN && forall c :: c in s ==> IsAlnum(c)
  }

  ghost predicate AllNames(ns: seq<string>) {
    forall n :: n in ns ==> IsName(n)
  }

  /** The path through the given names. */
  function Render(ns: seq<string>): string {
    if ns == [] then "" else "/" + ns[0] + Render(ns[1..])
  }

  /** A path that is the root, or a sequence of names each behind a slash. */
  ghost predicate WellFormed(path: string) {
    path == "/" || exists ns :: AllNames(ns) && path == Render(ns)
  }

  // ---------- reading a path from the left ----------

  // Number of alphanumeric characters at the front.
  function NameLen(s: string): (n: nat)
    ensures n <= |s|
  {
    if s == "" || !IsAlnum(s[0]) then 0 else 1 + NameLen(s[1..])
  }

  lemma {:induction false} NameLenIs(s: string, n: nat)
    requires n <= |s| && (forall i :: 0 <= i < n ==> IsAlnum(s[i])) && (n == |s| || !IsAlnum(s[n]))
    ensures NameLen(s) == n
  {
    if n > 0 { NameLenIs(s[1..], n - 1); }
  }

  lemma {:induction false} NameLenAlnum(s: string)
    ensures forall c :: c in s[..NameLen(s)] ==> IsAlnum(c)
  {
    if NameLen(s) > 0 {
      NameLenAlnum(s[1..]);
      assert s[..NameLen(s)] == [s[0]] + s[1..][..NameLen(s[1..])];
    }
  }

  /** The names of a path, if it is well formed. */
  function Parse(path: string): Option<seq<string>>
    decreases |path|
  {
    if path == "" then Some([])
    else if path[0] != '/' then None
    else
      var n := NameLen(path[1..]);
      if 1 <= n <= DIRNAME_MAX_LEN && (1 + n == |path| || path[1 + n] == '/') then
        match Parse(path[1 + n..])
        case None => None
        case Some(ns) => Some([path[1..1 + n]] + ns)
      else None
  }

  // The parts of a path that starts with name n.
  lemma Parts(n: string, rest: string)
    ensures var path := "/" + n + rest;
      |path| == 1 + |n| + |rest| && path[0] == '/' && path[1..] == n + rest && path[1..1 + |n|] == n &&
      path[1 + |n|..] == rest && (rest != "" ==> path[1 + |n|] == rest[0])
  {
  }

  lemma RenderShape(ns: seq<string>)
    requires AllNames(ns) && ns != []
    ensures IsName(ns[0]) && AllNames(ns[1..]) && '/' !in ns[0] && |Render(ns)| >= 2
    ensures Render(ns)[0] == '/' && Render(ns)[1..] == ns[0] + Render(ns[1..])
    ensures Render(ns[1..]) == "" || Render(ns[1..])[0] == '/'
  {
    Parts(ns[0], Render(ns[1..]));
    assert IsName(ns[0]);
  }

  lemma {:induction false} ParseUnfold(path: string)
    requires path != "" && Parse(path).Some?
    ensures var n := NameLen(path[1..]);
      1 <= n <= DIRNAME_MAX_LEN && path[0] == '/' && 1 + n <= |path| && Parse(path[1 + n..]).Some? &&
      Parse(path).value == [path[1..1 + n]] + Parse(path[1 + n..]).value
  {
    hide NameLen;
  }

  lemma {:induction false} ParseSound(path: string)
    requires Parse(path).Some?
    ensures AllNames(Parse(path).value) && Render(Parse(path).value) == path
    decreases |path|
  {
    if path != "" {
      ParseUnfold(path);
      hide Parse, NameLen, Render, AllNames;
      var n := NameLen(path[1..]);
      NameLenAlnum(path[1..]);
      ParseSound(path[1 + n..]);
      Reassemble(path, n);
      var name := path[1..1 + n];
      assert IsName(name);
      RenderCons(name, Parse(path[1 + n..]).value);
    }
  }

  lemma Reassemble(path: string, n: nat)
    requires 1 + n <= |path| && path[0] == '/'
    ensures "/" + path[1..1 + n] + path[1 + n..] == path && path[1..][..n] == path[1..1 + n]
  {
  }

  lemma RenderCons(n: string, ns: seq<string>)
    ensures Render([n] + ns) == "/" + n + Render(ns)
    ensures IsName(n) && AllNames(ns) ==> AllNames([n] + ns)
  {
    assert ([n] + ns)[1..] == ns;
  }

  lemma {:induction false} ParseRender(ns: seq<string>)
    requires AllNames(ns)
    ensures Parse(Render(ns)) == Some(ns)
  {
    if ns != [] {
      RenderShape(ns);
      ParseRender(ns[1..]);
      ParseStep(ns[0], Render(ns[1..]));
      assert [ns[0]] + ns[1..] == ns;
    }
  }

  // A name in front of what can be parsed.
  lemma ParseStep(n: string, rest: string)
    requires IsName(n) && (rest == "" || rest[0] == '/') && Parse(rest).Some?
    ensures Parse("/" + n + rest) == Some([n] + Parse(rest).value)
  {
    hide NameLen;
    Parts(n, rest);
    NameLenIs(n + rest, |n|);
  }

  /** A path has at most one sequence of names. */
  lemma WellFormedIff(path: string)
    ensures WellFormed(path) <==> path == "/" || Parse(path).Some?
  {
    if Parse(path).Some? { ParseSound(path); }
    if ns :| AllNames(ns) && path == Render(ns) {
      ParseRender(ns);
    }
  }

  // What remains of a path from a slash on is well formed if the name behind the slash is, and
  // what follows the name.
  lemma ParseAt(path: string, p: nat)
    requires p < |path|
    ensures path[p] != '/' ==> Parse(path[p..]).None?
    ensures var n := NameLen(path[p + 1..]);
      path[p] == '/' ==> p + 1 + n <= |path| && (Parse(path[p..]).Some? <==>
        1 <= n <= DIRNAME_MAX_LEN && (p + 1 + n == |path| || path[p + 1 + n] == '/') && Parse(path[p + 1 + n..]).Some?)
  {
    var s := path[p..];
    assert s[1..] == path[p + 1..];
    var n := NameLen(path[p + 1..]);
    assert s[1 + n..] == path[p + 1 + n..];
  }

  // The inner loop of path_check.
  method SkipName(path: string, tmp: nat) returns (p: nat)
    requires tmp <= |path|
    ensures p == tmp + NameLen(path[tmp..]) && p <= |path|
  {
    p := tmp;
    while p < |path| && IsAlnum(path[p])
      invariant tmp <= p <= |path| && forall i :: tmp <= i < p ==> IsAlnum(path[i])
    {
      p := p + 1;
    }
    NameLenIs(path[tmp..], p - tmp);
  }

  /** path_check: 0 exactly for well-formed paths, which include the empty one. */
  method PathCheck(path: string) returns (r: int)
    ensures r == 0 <==> WellFormed(path)
    ensures r == 0 || r == 1
  {
    hide Parse, NameLen, WellFormed;
    WellFormedIff(path);
    if path == "/" {
      return 0;
    }
    var p := 0;
    assert path[0..] == path;
    while p < |path|
      invariant 0 <= p <= |path| && (Parse(path).Some? <==> Parse(path[p..]).Some?)
    {
      ParseAt(path, p);
      if path[p] != '/' {
        return 1;
      }
      var tmp := p + 1;
      p := SkipName(path, tmp);
      if p < |path| {
        if path[p] != '/' {
          return 1;
        }
        if p - tmp > DIRNAME_MAX_LEN || p == tmp {
          return 1;
        }
      } else {
        if p - tmp > DIRNAME_MAX_LEN || p == tmp {
          return 1;
        } else {
          break;
        }
      }
    }
    assert path[p..] == "";
    ParseEmpty();
    r := 0;
  }

  lemma ParseEmpty()
    ensures Parse("").Some?
  {
  }

  // ---------- the last component ----------

  /** What mkdir and the other callers would put together again. */
  function Join(upper: string, last: string): string {
    if upper == "/" then "/" + last else upper + "/" + last
  }

  /** path_split looks for a slash from the last character on. In a path without one, such as the
      empty path that path_check lets through, the search leaves the string: found is false. */
  method PathSplit(path: string) returns (found: bool, upper: string, last: string)
    ensures found <==> '/' in path
    ensures found ==> '/' !in last && |last| < |path|
    ensures found ==> var head := path[..|path| - |last| - 1]; path == head + "/" + last && upper == if head == "" then "/" else head
    ensures WellFormed(path) ==> (found <==> path != "")
    ensures WellFormed(path) && found ==> Join(upper, last) == path && |last| <= DIRNAME_MAX_LEN && |upper| <= |path|
    ensures WellFormed(path) && found ==> if path == "/" then upper == "/" && last == "" else WellFormed(upper) && IsName(last)
  {
    hide WellFormed, IsName;
    if WellFormed(path) && path != "" { HasSlash(path); }
    var p := |path| - 1;
    while p >= 0 && path[p] != '/'
      invariant -1 <= p < |path| && forall i :: p < i < |path| ==> path[i] != '/'
    {
      p := p - 1;
    }
    if p < 0 {
      return false, "", "";
    }
    found, upper, last := true, path[..p], path[p + 1..];
    if upper == "" {
      upper := "/";
    }
    assert path == path[..p] + "/" + last;
    if WellFormed(path) { SplitWellFormed(path, path[..p], last); }
  }

  // The two sides of the last slash of a well-formed path.
  lemma SplitWellFormed(path: string, head: string, last: string)
    requires WellFormed(path) && path == head + "/" + last && '/' !in last
    ensures |last| <= DIRNAME_MAX_LEN && WellFormed("/")
    ensures if path == "/" then head == last == "" else IsName(last) && (head == "" || WellFormed(head)) && head != "/"
  {
    if path == "/" {
      assert |head| == 0;
    } else {
      var ns :| AllNames(ns) && path == Render(ns);
      SplitNames(ns, head, last);
      if head != "" { RenderShape(ns[..|ns| - 1]); }
    }
  }

  lemma HasSlash(path: string)
    requires path != "" && WellFormed(path)
    ensures path[0] == '/'
  {
    if path != "/" {
      var ns :| AllNames(ns) && path == Render(ns);
    }
  }

  lemma {:induction false} RenderAppend(ns: seq<string>, n: string)
    ensures Render(ns + [n]) == Render(ns) + "/" + n
  {
    if ns == [] {
      assert [n][1..] == [];
    } else {
      RenderAppend(ns[1..], n);
      assert (ns + [n])[1..] == ns[1..] + [n];
    }
  }

  // The last slash of a path is the one before its last name.
  lemma SplitNames(ns: seq<string>, upper: string, last: string)
    requires AllNames(ns) && ns != [] && Render(ns) == upper + "/" + last && '/' !in last
    ensures last == ns[|ns| - 1] && upper == Render(ns[..|ns| - 1]) && IsName(last) && AllNames(ns[..|ns| - 1])
  {
    var k := |ns| - 1;
    assert ns == ns[..k] + [ns[k]];
    RenderAppend(ns[..k], ns[k]);
    assert IsName(ns[k]);
    assert '/' !in ns[k];
    LastSlash(upper, last, Render(ns[..k]), ns[k]);
  }

  lemma SlashInTail(u: string, l: string, u': string, l': string)
    requires u + "/" + l == u' + "/" + l' && |u| < |u'|
    ensures '/' in l
  {
    var s := u + "/" + l;
    assert s[|u'|] == (u' + "/" + l')[|u'|] == '/';
    assert s[|u'|] == l[|u'| - |u| - 1];
  }

  lemma LastSlash(u: string, l: string, u': string, l': string)
    requires u + "/" + l == u' + "/" + l' && '/' !in l && '/' !in l'
    ensures u == u' && l == l'
  {
    if |u| < |u'| {
      SlashInTail(u, l, u', l');
    } else if |u'| < |u| {
      SlashInTail(u', l', u, l);
    } else {
      var s := u + "/" + l;
      assert u == s[..|u|] && u' == s[..|u|];
      assert l == s[|u| + 1..] && l' == s[|u| + 1..];
    }
  }

  // ---------- name_of_next_level ----------

  /** name_of_next_level: the text up to the next slash, and what follows the slash. */
  method NameOfNextLevel(path: string) returns (rest: Option<string>, name: string)
    ensures rest.Some? ==> '/' !in name && |name| <= DIRNAME_MAX_LEN
    ensures rest.Some? ==> (path == name && rest.value == "") || path == name + "/" + rest.value
    ensures rest.None? ==> |path| > DIRNAME_MAX_LEN && '/' !in path[..DIRNAME_MAX_LEN + 1]
  {
    var i := 0;
    while i < |path| && path[i] != '/'
      invariant 0 <= i <= |path| && '/' !in path[..i]
    {
      i := i + 1;
    }
    if i > DIRNAME_MAX_LEN {
      assert forall c :: c in path[..DIRNAME_MAX_LEN + 1] ==> c in path[..i];
      return None, "";
    }
    name := path[..i];
    rest := Some(if i == |path| then path[i..] else path[i + 1..]);
  }

  // The first name of a list and the rest, behind the leading slash.
  lemma FirstName(ns: seq<string>, p: string, name: string, rest: string)
    requires AllNames(ns) && ns != [] && '/' !in name && Render(ns) == "/" + p
    requires (p == name && rest == "") || p == name + "/" + rest
    ensures name == ns[0] && name != "" && AllNames(ns[1..])
    ensures Render(ns[1..]) == if ns[1..] == [] then "" else "/" + rest
    ensures ns[1..] == [] ==> rest == ""
  {
    hide AllNames, IsName;
    RenderShape(ns);
    assert p == Render(ns)[1..];
    FirstSlash(p, name, rest, ns[0], Render(ns[1..]));
    assert name != "" by { NameNonempty(ns[0]); }
    if ns[1..] != [] { RenderShape(ns[1..]); }
  }

  lemma NameNonempty(n: string)
    requires IsName(n)
    ensures n != ""
  {
  }

  // What follows the shorter of two prefixes of p begins inside the longer one.
  lemma InPrefix(p: string, a: string, b: string, c: string, d: string)
    requires p == a + b && p == c + d && |a| < |c|
    ensures b != "" && b[0] in c
  {
    assert p[|a|] == b[0] && p[|a|] == c[|a|];
  }

  lemma FirstSlash(p: string, name: string, rest: string, n: string, t: string)
    requires '/' !in name && '/' !in n && p == n + t && (t == "" || t[0] == '/')
    requires (p == name && rest == "") || p == name + "/" + rest
    ensures name == n && (t == "" ==> rest == "") && (t != "" ==> t == "/" + rest)
  {
    var tail := if p == name then "" else "/" + rest;
    assert p == name + tail;
    if |name| < |n| {
      InPrefix(p, name, tail, n, t);
    } else if |n| < |name| {
      InPrefix(p, n, t, name, tail);
    } else {
      assert name == p[..|n|] && n == p[..|n|];
      assert t == p[|n|..] && tail == p[|n|..];
    }
  }

  /** The loop of inode_get over name_of_next_level: the names of the path one after the other,
      and never a failure. */
  method Components(path: string) returns (ns: seq<string>)
    requires WellFormed(path) && path != ""
    ensures path == "/" ==> ns == []
    ensures path != "/" ==> AllNames(ns) && Render(ns) == path
  {
    hide AllNames, Render, IsName;
    HasSlash(path);
    ns := [];
    var p := path[1..];
    if path == "/" {
      return;
    }
    ghost var all :| AllNames(all) && path == Render(all);
    ghost var left := all;
    assert all != [] by { RenderEmpty(all); }
    while p != ""
      invariant AllNames(left) && all == ns + left
      invariant left == [] ==> p == ""
      invariant left != [] ==> Render(left) == "/" + p
      decreases |left|
    {
      FirstIsShort(left, p);
      var rest, name := NameOfNextLevel(p);
      FirstName(left, p, name, rest.value);
      if name == "" {
        break;
      }
      ns, p := ns + [name], rest.value;
      left := left[1..];
    }
    if left != [] { RenderShape(left); }
    assert ns + left == ns;
  }

  lemma RenderEmpty(ns: seq<string>)
    requires Render(ns) != ""
    ensures ns != []
  {
  }

  lemma FirstIsShort(ns: seq<string>, p: string)
    requires AllNames(ns) && ns != [] && Render(ns) == "/" + p
    ensures |p| > DIRNAME_MAX_LEN ==> '/' in p[..DIRNAME_MAX_LEN + 1]
  {
    RenderShape(ns);
    var t := Render(ns[1..]);
    assert p == Render(ns)[1..];
    if |p| > DIRNAME_MAX_LEN {
      assert p[|ns[0]|] == t[0];
      assert p[..DIRNAME_MAX_LEN + 1][|ns[0]|] == '/';
    }
  }
}
