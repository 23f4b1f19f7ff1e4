/** File names: making them absolute and canonical, and showing them short. */
module Paths {

  const SLASH: char := '/'

  /** A proper component of a path. */
  predicate Component(c: string) { c != "" && c != "." && c != ".." && SLASH !in c }

  ghost predicate Canonical(cs: seq<string>) { forall i :: 0 <= i < |cs| ==> Component(cs[i]) }

  /** Components, each behind a slash. */
  function Slashed(cs: seq<string>): string {
    if cs == [] then "" else [SLASH] + cs[0] + Slashed(cs[1..])
  }

  /** The absolute path of components. */
  function Render(cs: seq<string>): (s: string)
    ensures s != "" && s[0] == SLASH
  {
    if cs == [] then [SLASH] else Slashed(cs)
  }

  /** Components with slashes between them. */
  function Joined(cs: seq<string>): string {
    if cs == [] then "" else cs[0] + Slashed(cs[1..])
  }

  /** The end of the first component. */
  function Slash(s: string): (n: nat)
    ensures n <= |s| && SLASH !in s[..n] && (n < |s| ==> s[n] == SLASH)
  {
    if s == "" || s[0] == SLASH then 0
    else
      assert s[..Slash(s[1..]) + 1] == [s[0]] + s[1..][..Slash(s[1..])];
      Slash(s[1..]) + 1
  }

  datatype Link = NotLink | Link(target: string)

  /** The surroundings: the room for a name, the current and home directories, others' home directories, symbolic links. */
  datatype Env = Env(fileSize: nat, pwd: seq<string>, home: string, homeOf: string -> Home, readlink: string -> Link) {
    ghost predicate Ok() {
      Canonical(pwd) && forall p :: readlink(p).Link? ==> readlink(p).target != ""
    }
  }

  datatype Home = Unknown | Dir(dir: string)

  const MAX_LINKS: nat := 100

  function Up(cs: seq<string>): seq<string> { if cs == [] then [] else cs[..|cs| - 1] }

  /** Is the path so far a symbolic link that is to be followed before its parent is taken? */
  predicate Follows(cs: seq<string>, rest: string, links: nat, env: Env) {
    var l := env.readlink(Render(cs));
    && l.Link? && l.target != "" && links + 1 < MAX_LINKS
    && |rest| + |l.target| + (if l.target[0] == SLASH then 0 else |Render(Up(cs))|) + 2 <= env.fileSize
  }

  function Counted(cs: seq<string>, links: nat, env: Env): nat {
    if env.readlink(Render(cs)).Link? then links + 1 else links
  }

  /** A link's target in front of what is left of the name. */
  function Jam(target: string, rest: string): string {
    target + (if |target| <= 1 || target[|target| - 1] != SLASH then [SLASH] else "") + rest
  }

  /** Where the name `rest` leads from `cs`, when `links` links have been met. */
  function Walk(cs: seq<string>, rest: string, links: nat, env: Env): seq<string>
    decreases if links < MAX_LINKS then MAX_LINKS - links else 0, |rest|
  {
    if rest == "" then cs
    else
      var n := Slash(rest);
      var c := rest[..n];
      var tail := if n < |rest| then rest[n + 1..] else "";
      if c == "" || c == "." then Walk(cs, tail, links, env)
      else if c != ".." then Walk(cs + [c], tail, links, env)
      else if Follows(cs, rest, links, env) then
        var target := env.readlink(Render(cs)).target;
        if target[0] == SLASH then Walk([], Jam(target, rest)[1..], links + 1, env)
        else Walk(Up(cs), Jam(target, rest), links + 1, env)
      else Walk(Up(cs), tail, Counted(cs, links, env), env)
  }

  /** Whatever the links are, the result has proper components only. */
  lemma {:induction false} WalkCanonical(cs: seq<string>, rest: string, links: nat, env: Env)
    requires Canonical(cs)
    ensures Canonical(Walk(cs, rest, links, env))
    decreases if links < MAX_LINKS then MAX_LINKS - links else 0, |rest|
  {
    hide Canonical, Render, Up;
    UpCanonical(cs);
    if rest != "" {
      var n := Slash(rest);
      var c := rest[..n];
      var tail := if n < |rest| then rest[n + 1..] else "";
      if c == "" || c == "." {
        WalkCanonical(cs, tail, links, env);
      } else if c != ".." {
        PushCanonical(cs, c);
        WalkCanonical(cs + [c], tail, links, env);
      } else if Follows(cs, rest, links, env) {
        var target := env.readlink(Render(cs)).target;
        if target[0] == SLASH {
          NoneCanonical();
          WalkCanonical([], Jam(target, rest)[1..], links + 1, env);
        } else {
          WalkCanonical(Up(cs), Jam(target, rest), links + 1, env);
        }
      } else {
        WalkCanonical(Up(cs), tail, Counted(cs, links, env), env);
      }
    }
  }

  datatype Expansion = Complaint | Local(name: string)

  /** The name with its home directory, if it asks for one. */
  function Expand(name: string, env: Env): Expansion
    requires name != ""
  {
    if name[0] == '~' then
      var n := Slash(name);
      if n == 1 then Local(env.home + name[1..])
      else if n - 1 >= 30 then Complaint
      else match env.homeOf(name[1..n])
        case Unknown => Complaint
        case Dir(dir) => Local(dir + name[n..])
    else if |name| > 1 && name[0] == '\\' && name[1] == '~' then Local(name[1..])
    else Local(name)
  }

  predicate Absolute(local: string) { local != "" && local[0] == SLASH }

  function Start(local: string, env: Env): seq<string> { if Absolute(local) then [] else env.pwd }

  /** What PathParse makes of a name. */
  function Parsed(name: string, env: Env): Expansion {
    if name == "" then Local("")
    else match Expand(name, env)
      case Complaint => Complaint
      case Local(local) => Local(Render(Walk(Start(local, env), local, 0, env)))
  }

  lemma {:induction false} SlashedPush(cs: seq<string>, c: string)
    ensures Slashed(cs + [c]) == Slashed(cs) + [SLASH] + c
  {
    if cs == [] {
      assert [c][1..] == [];
      assert [SLASH] + c + "" == [SLASH] + c;
    } else {
      SlashedPush(cs[1..], c);
      assert (cs + [c])[1..] == cs[1..] + [c];
      assert [SLASH] + cs[0] + (Slashed(cs[1..]) + [SLASH] + c) == ([SLASH] + cs[0] + Slashed(cs[1..])) + [SLASH] + c;
    }
  }

  lemma RenderPush(cs: seq<string>, c: string)
    ensures Render(cs + [c]) == (if cs == [] then [SLASH] else Render(cs) + [SLASH]) + c
  {
    SlashedPush(cs, c);
  }

  /** A path ends in a slash only if it is the root. */
  lemma RenderEnd(cs: seq<string>)
    requires Canonical(cs)
    ensures var s := Render(cs); s[|s| - 1] == SLASH <==> cs == []
  {
    if cs != [] {
      var last := cs[|cs| - 1];
      assert cs == Up(cs) + [last] && Component(last);
      RenderPush(Up(cs), last);
      assert last[|last| - 1] in last;
    }
  }

  /** The last slash of a path, and what is before it. */
  lemma LastSlash(cs: seq<string>) returns (at: nat)
    requires Canonical(cs)
    ensures var path := Render(cs);
      && at < |path| && path[at] == SLASH && (forall k :: at < k < |path| ==> path[k] != SLASH)
      && path[..if at == 0 then 1 else at] == Render(Up(cs))
  {
    at := 0;
    if cs != [] {
      var up, last := Up(cs), cs[|cs| - 1];
      assert cs == up + [last] && Component(last);
      RenderPush(up, last);
      if up != [] { at := |Render(up)|; }
      LastPart(if up == [] then "" else Render(up), last);
    }
  }

  lemma LastPart(pre: string, last: string)
    requires SLASH !in last
    ensures var path := pre + [SLASH] + last;
      && path[|pre|] == SLASH && path[..|pre|] == pre && path[..|pre| + 1] == pre + [SLASH]
      && forall k :: |pre| < k < |path| ==> path[k] != SLASH
  {}

  /** The search for the slash before the last component. */
  method StripLast(into: string, ghost cs: seq<string>) returns (dp: nat)
    requires Canonical(cs) && into == Render(cs)
    ensures dp <= |into| && into[..dp] == Render(Up(cs))
  {
    hide Render, Canonical, Up;
    dp := |into|;
    ghost var at := LastSlash(cs);
    while dp > 1
      invariant at < dp <= |into|
    {
      dp := dp - 1;
      if into[dp] == SLASH { break; }
    }
  }

  /** How far the result may still grow: what is left of the name fits behind the path so far. */
  ghost predicate Fits(cs: seq<string>, rest: string, room: nat) {
    |Slashed(cs)| + |rest| + (if rest == "" || Absolute(rest) then 0 else 1) - (if Dots(rest) then 2 else 0) < room
  }

  /** Is one of the components `..`? */
  predicate Dots(rest: string)
    decreases |rest|
  {
    rest != "" && (rest[..Slash(rest)] == ".." || (Slash(rest) < |rest| && Dots(rest[Slash(rest) + 1..])))
  }

  lemma {:induction false} DotsBehind(a: string, b: string)
    requires Dots(b)
    ensures Dots(a + [SLASH] + b)
    decreases |a|
  {
    var s := a + [SLASH] + b;
    var n := Slash(a);
    SlashOf(a, b);
    if n < |a| {
      assert s[n + 1..] == a[n + 1..] + [SLASH] + b;
      DotsBehind(a[n + 1..], b);
    } else {
      assert s[|a| + 1..] == b;
    }
  }

  /** The first component ends at the first slash. */
  lemma {:induction false} SlashOf(a: string, b: string)
    ensures Slash(a + [SLASH] + b) == Slash(a)
  {
    if a != "" && a[0] != SLASH {
      SlashOf(a[1..], b);
      assert (a + [SLASH] + b)[1..] == a[1..] + [SLASH] + b;
    }
  }

  lemma JamFacts(target: string, rest: string)
    requires target != "" && Dots(rest)
    ensures var j := Jam(target, rest); 0 < |j| <= |target| + 1 + |rest| && Dots(j) && j[0] == target[0] && Dots(j[1..])
  {
    var a := if |target| <= 1 || target[|target| - 1] != SLASH then target else target[..|target| - 1];
    assert Jam(target, rest) == a + [SLASH] + rest;
    assert (a + [SLASH] + rest)[1..] == a[1..] + [SLASH] + rest;
    DotsBehind(a, rest);
    DotsBehind(a[1..], rest);
  }

  lemma DotsShort(rest: string)
    ensures Dots(rest) ==> |rest| >= 2
    decreases |rest|
  {
    if rest != "" && Slash(rest) < |rest| { DotsShort(rest[Slash(rest) + 1..]); }
  }

  function Tail(rest: string): string {
    var n := Slash(rest);
    if n < |rest| then rest[n + 1..] else ""
  }

  lemma FitsNext(cs: seq<string>, rest: string, env: Env)
    requires Fits(cs, rest, env.fileSize) && rest != ""
    ensures var c := rest[..Slash(rest)];
      && (c == "" || c == "." ==> Fits(cs, Tail(rest), env.fileSize))
      && (c != "" && c != "." && c != ".." ==> Fits(cs + [c], Tail(rest), env.fileSize) && |Slashed(cs + [c])| < env.fileSize)
  {
    DotsShort(rest);
    DotsShort(Tail(rest));
    SlashedPush(cs, rest[..Slash(rest)]);
  }

  lemma FitsUp(cs: seq<string>, rest: string, env: Env)
    requires Fits(cs, rest, env.fileSize) && rest != "" && rest[..Slash(rest)] == ".."
    ensures Fits(Up(cs), Tail(rest), env.fileSize)
  {
    if cs != [] {
      assert cs == Up(cs) + [cs[|cs| - 1]];
      SlashedPush(Up(cs), cs[|cs| - 1]);
    }
    assert Slash(rest) == 2 && !Absolute(rest);
    assert |Tail(rest)| <= |rest| - 2 && (Tail(rest) != "" ==> |Tail(rest)| == |rest| - 3);
    assert |Slashed(Up(cs))| <= |Slashed(cs)|;
  }

  lemma FitsLink(cs: seq<string>, rest: string, links: nat, env: Env)
    requires rest != "" && rest[..Slash(rest)] == ".." && Follows(cs, rest, links, env)
    ensures var target := env.readlink(Render(cs)).target; var j := Jam(target, rest);
      |j| > 0 && if target[0] == SLASH then Fits([], j[1..], env.fileSize) else Fits(Up(cs), j, env.fileSize)
  {
    assert Dots(rest);
    JamFacts(env.readlink(Render(cs)).target, rest);
  }

  lemma WalkIs(cs: seq<string>, rest: string, links: nat, env: Env)
    ensures rest == "" ==> Walk(cs, rest, links, env) == cs
    ensures rest != "" ==> var c := rest[..Slash(rest)];
      Walk(cs, rest, links, env) ==
        if c == "" || c == "." then Walk(cs, Tail(rest), links, env)
        else if c != ".." then Walk(cs + [c], Tail(rest), links, env)
        else if Follows(cs, rest, links, env) then
          var target := env.readlink(Render(cs)).target;
          if target[0] == SLASH then Walk([], Jam(target, rest)[1..], links + 1, env)
          else Walk(Up(cs), Jam(target, rest), links + 1, env)
        else Walk(Up(cs), Tail(rest), Counted(cs, links, env), env)
  {
    if rest != "" && rest[..Slash(rest)] == ".." && Follows(cs, rest, links, env) { JamLonger(env.readlink(Render(cs)).target, rest); }
  }

  lemma TailIs(rest: string)
    ensures Slash(rest) <= |rest| && Tail(rest) == if Slash(rest) < |rest| then rest[Slash(rest) + 1..] else ""
  {}

  lemma JamLonger(target: string, rest: string)
    requires target != ""
    ensures |Jam(target, rest)| > 0
  {}

  lemma SlashWithin(s: string)
    ensures Slash(s) <= |s| && SLASH !in s[..Slash(s)]
  {}

  lemma NoneCanonical()
    ensures Canonical([])
  {}

  lemma UpCanonical(cs: seq<string>)
    requires Canonical(cs)
    ensures Canonical(Up(cs)) && |Render(Up(cs))| <= |Render(cs)|
  {
    if cs != [] {
      assert cs == Up(cs) + [cs[|cs| - 1]];
      RenderPush(Up(cs), cs[|cs| - 1]);
    }
  }

  lemma PushCanonical(cs: seq<string>, c: string)
    requires Canonical(cs) && Component(c)
    ensures Canonical(cs + [c])
    ensures var into := Render(cs); Render(cs + [c]) == (if into[|into| - 1] != SLASH then into + [SLASH] else into) + c
  {
    RenderPush(cs, c);
    RenderEnd(cs);
  }

  lemma RenderLength(cs: seq<string>)
    ensures |Render(cs)| == if cs == [] then 1 else |Slashed(cs)|
  {}

  /** Makes a name absolute and canonical.  The result fits its buffer, however links lead on, and few links are followed. */
  method PathParse(name: string, env: Env) returns (r: Expansion, ghost followed: nat)
    requires env.Ok() && env.fileSize > 1
    requires name != "" ==> var e := Expand(name, env);
      e.Local? ==> |e.name| < env.fileSize && |Render(env.pwd)| < env.fileSize && Fits(Start(e.name, env), e.name, env.fileSize)
    ensures r == Parsed(name, env)
    ensures followed < MAX_LINKS
    ensures r.Local? ==> |r.name| < env.fileSize
  {
    followed := 0;
    if name == "" { return Local(""), 0; }
    var local, from := "", name;
    if name[0] == '~' {
      var uend := Slash(name);
      if uend == 1 {
        local, from := env.home, name[1..];
      } else {
        if uend - 1 >= 30 { return Complaint, 0; }
        match env.homeOf(name[1..uend]) {
          case Unknown => return Complaint, 0;
          case Dir(dir) => local, from := dir, name[uend..];
        }
      }
    } else if |name| > 1 && name[0] == '\\' && name[1] == '~' {
      from := name[1..];
    }
    local := local + from;
    assert local == Expand(name, env).name;
    var into := if Absolute(local) then [SLASH] else Render(env.pwd);
    followed, into := Components(into, local, env, Start(local, env));
    r := Local(into);
  }

  /** Takes the components of `local` one by one. */
  method Components(into0: string, local: string, env: Env, ghost cs0: seq<string>) returns (ghost followed: nat, into: string)
    requires env.Ok() && Canonical(cs0) && into0 == Render(cs0) && |into0| < env.fileSize && env.fileSize > 1 && Fits(cs0, local, env.fileSize)
    ensures into == Render(Walk(cs0, local, 0, env)) && |into| < env.fileSize && followed < MAX_LINKS
  {
    hide Fits, Slash, Canonical, Dots, Jam, Slashed, Walk, Tail, Up;
    followed, into := 0, into0;
    var fp := local;
    var linkcnt := 0;
    ghost var cs := cs0;
    while fp != ""
      invariant Canonical(cs) && into == Render(cs) && |into| < env.fileSize && Fits(cs, fp, env.fileSize)
      invariant Walk(cs, fp, linkcnt, env) == Walk(cs0, local, 0, env)
      invariant followed <= linkcnt && followed < MAX_LINKS
      decreases if linkcnt < MAX_LINKS then MAX_LINKS - linkcnt else 0, |fp|
    {
      FitsNext(cs, fp, env);
      WalkIs(cs, fp, linkcnt, env);
      TailIs(fp);
      var sp := Slash(fp);
      SlashWithin(fp);
      var c := fp[..sp];
      if c == "" || c == "." {
      } else if c == ".." {
        UpCanonical(cs);
        FitsUp(cs, fp, env);
        var dp := StripLast(into, cs);
        var l := env.readlink(into);
        if l.Link? {
          linkcnt := linkcnt + 1;
          if linkcnt < MAX_LINKS && |fp| + |l.target| + (if l.target[0] == SLASH then 0 else dp) + 2 <= env.fileSize {
            FitsLink(cs, fp, linkcnt - 1, env);
            followed := followed + 1;
            fp := Jam(l.target, fp);
            if l.target[0] == SLASH {
              fp := fp[1..];
              into, cs := [SLASH], [];
              assert Canonical([]) by { NoneCanonical(); }
            } else {
              into, cs := into[..dp], Up(cs);
            }
            continue;
          }
        }
        into, cs := into[..dp], Up(cs);
      } else {
        PushCanonical(cs, c);
        into := (if into[|into| - 1] != SLASH then into + [SLASH] else into) + c;
        cs := cs + [c];
        RenderLength(cs);
      }
      if sp == |fp| {
        fp := "";
        break;
      }
      fp := fp[sp + 1..];
    }
    WalkIs(cs, "", linkcnt, env);
  }

  predicate BelowDir(fname: string, dir: string) { dir <= fname && |dir| < |fname| && fname[|dir|] == SLASH }

  /** A file name as it is shown: without the current directory's prefix, or with `~` for the home directory's. */
  function PrName(fname: string, pwd: string, home: string, okayHome: bool): string {
    var improvement := if BelowDir(fname, pwd) then |pwd| + 1 else 0;
    if okayHome && |home| > improvement + 1 && BelowDir(fname, home) then "~" + fname[|home|..]
    else if BelowDir(fname, pwd) then fname[|pwd| + 1..]
    else fname
  }

  lemma {:induction false} SlashedSplit(cs: seq<string>, ds: seq<string>)
    ensures Slashed(cs + ds) == Slashed(cs) + Slashed(ds)
    decreases |cs|
  {
    if cs == [] {
      assert cs + ds == ds && "" + Slashed(ds) == Slashed(ds);
    } else {
      SlashedSplit(cs[1..], ds);
      assert (cs + ds)[1..] == cs[1..] + ds;
      assert [SLASH] + cs[0] + (Slashed(cs[1..]) + Slashed(ds)) == ([SLASH] + cs[0] + Slashed(cs[1..])) + Slashed(ds);
    }
  }

  /** A directory's path and a slash in front of a path mean that the path is below the directory. */
  lemma {:induction false} Below(cs: seq<string>, fs: seq<string>)
    requires Canonical(cs) && Canonical(fs)
    requires Slashed(cs) + [SLASH] <= Slashed(fs)
    ensures |cs| < |fs| && cs == fs[..|cs|]
    decreases |cs|
  {
    assert fs != [];
    if cs != [] {
      var rest := Slashed(cs[1..]) + [SLASH];
      assert Slashed(cs) + [SLASH] == [SLASH] + (cs[0] + rest);
      assert Slashed(fs) == [SLASH] + (fs[0] + Slashed(fs[1..]));
      PrefixDrop(cs[0] + rest, fs[0] + Slashed(fs[1..]));
      assert Component(cs[0]) && Component(fs[0]);
      SameHead(cs[0], rest, fs[0], Slashed(fs[1..]));
      Below(cs[1..], fs[1..]);
      assert cs == [cs[0]] + cs[1..] && fs[..|cs|] == [fs[0]] + fs[1..][..|cs| - 1];
    }
  }

  lemma PrefixDrop(a: string, b: string)
    requires [SLASH] + a <= [SLASH] + b
    ensures a <= b
  {
    assert ([SLASH] + b)[..|a| + 1] == [SLASH] + a;
    assert b[..|a|] == ([SLASH] + b)[..|a| + 1][1..];
  }

  /** A string without slashes is the first component of what it starts. */
  lemma {:induction false} SlashAt(a: string, r: string)
    requires SLASH !in a && (r == "" || r[0] == SLASH)
    ensures Slash(a + r) == |a|
  {
    if a != "" {
      assert a[0] in a;
      SlashAt(a[1..], r);
      assert (a + r)[1..] == a[1..] + r;
    }
  }

  lemma {:induction false} SlashPrefix(x: string, y: string)
    requires x <= y && Slash(x) < |x|
    ensures Slash(y) == Slash(x)
  {
    assert x == y[..|x|];
    if x[0] != SLASH {
      assert x[1..] == y[1..][..|x| - 1];
      SlashPrefix(x[1..], y[1..]);
    }
  }

  lemma SameHead(a: string, r: string, b: string, q: string)
    requires SLASH !in a && SLASH !in b && r != "" && r[0] == SLASH && (q == "" || q[0] == SLASH) && a + r <= b + q
    ensures a == b && r <= q
  {
    SlashAt(a, r);
    SlashAt(b, q);
    SlashPrefix(a + r, b + q);
    assert forall k :: 0 <= k < |a + r| ==> (a + r)[k] == (b + q)[k];
    assert forall k :: 0 <= k < |a| ==> a[k] == (a + r)[k] == b[k];
    assert r == (a + r)[|a|..] == (b + q)[|a|..][..|r|] == q[..|r|];
  }

  lemma WalkOne(cs: seq<string>, c: string, rest: string, links: nat, env: Env)
    requires Component(c)
    ensures Walk(cs, c + [SLASH] + rest, links, env) == Walk(cs + [c], rest, links, env)
    ensures Walk(cs, c, links, env) == cs + [c]
  {
    SlashAt(c, [SLASH] + rest);
    assert c + [SLASH] + rest == c + ([SLASH] + rest);
    assert (c + [SLASH] + rest)[|c| + 1..] == rest;
    SlashAt(c, "");
    assert c + "" == c;
  }

  /** A name of proper components leads straight down. */
  lemma {:induction false} WalkDown(cs: seq<string>, ds: seq<string>, links: nat, env: Env)
    requires Canonical(ds)
    ensures Walk(cs, Joined(ds), links, env) == cs + ds
    ensures Walk(cs, Slashed(ds), links, env) == cs + ds
    decreases |ds|
  {
    hide *;
    if ds == [] {
      WalkNone(cs, links, env);
      assert cs + ds == cs;
    } else {
      assert ds == [ds[0]] + ds[1..];
      FirstOf(ds[0], ds[1..], env);
      WalkDown(cs + [ds[0]], ds[1..], links, env);
      assert cs + [ds[0]] + ds[1..] == cs + ds;
      WalkOne(cs, ds[0], Joined(ds[1..]), links, env);
      JoinedIs(ds);
      if ds[1..] == [] {
        WalkNone(cs, links, env);
      } else {
        SlashedJoined(ds[1..]);
        assert ds[0] + ([SLASH] + Joined(ds[1..])) == ds[0] + [SLASH] + Joined(ds[1..]);
      }
      SlashedJoined(ds);
      LeadingSlash(cs, Joined(ds), links, env);
    }
  }

  lemma WalkNone(cs: seq<string>, links: nat, env: Env)
    ensures Walk(cs, Joined([]), links, env) == cs && Walk(cs, Slashed([]), links, env) == cs
    ensures Slashed([]) == "" && forall c: string :: c + "" == c
  {}

  lemma JoinedIs(ds: seq<string>)
    requires ds != []
    ensures Joined(ds) == ds[0] + Slashed(ds[1..])
  {}

  lemma SlashedJoined(ds: seq<string>)
    requires ds != []
    ensures Slashed(ds) == [SLASH] + Joined(ds)
  {
    assert [SLASH] + ds[0] + Slashed(ds[1..]) == [SLASH] + (ds[0] + Slashed(ds[1..]));
  }

  lemma LeadingSlash(cs: seq<string>, rest: string, links: nat, env: Env)
    ensures Walk(cs, [SLASH] + rest, links, env) == Walk(cs, rest, links, env)
  {
    assert ([SLASH] + rest)[1..] == rest;
  }

  /** The path of a directory followed by that of something in it. */
  lemma WalkBoth(ds: seq<string>, fs: seq<string>, links: nat, env: Env)
    requires Canonical(ds) && Canonical(fs)
    ensures Walk([], Render(ds) + Slashed(fs), links, env) == ds + fs
  {
    if ds == [] {
      LeadingSlash([], Slashed(fs), links, env);
      WalkDown([], fs, links, env);
      assert [] + fs == fs;
    } else {
      SlashedSplit(ds, fs);
      forall i | 0 <= i < |ds + fs| ensures Component((ds + fs)[i]) {}
      WalkDown([], ds + fs, links, env);
    }
  }

  /** The names of home directories are those of canonical paths. */
  ghost predicate Homes(env: Env, home: seq<string>, homes: string -> seq<string>) {
    && Canonical(home) && env.home == Render(home)
    && forall u :: env.homeOf(u).Dir? ==> Canonical(homes(u)) && env.homeOf(u).dir == Render(homes(u))
  }

  /** The component `~u` names a home directory: which? */
  function HomeNamed(c: string, env: Env, home: seq<string>, homes: string -> seq<string>): (seq<string>, bool)
    requires c != ""
  {
    if c == "~" then (home, true)
    else if |c| - 1 < 30 && env.homeOf(c[1..]).Dir? then (homes(c[1..]), true)
    else ([], false)
  }

  /** A name below the current directory, with its first component. */
  lemma Relative(c: string, rest: seq<string>, env: Env, home: seq<string>, homes: string -> seq<string>)
    requires env.Ok() && Homes(env, home, homes) && Component(c) && Canonical(rest)
    ensures var name := Joined([c] + rest); var p := Parsed(name, env);
      && (c[0] != '~' && !("\\~" <= c) ==> p == Local(Render(env.pwd + ([c] + rest))))
      && ("\\~" <= c ==> p == Local(Render(env.pwd + ([c[1..]] + rest))))
      && (c[0] == '~' ==> var h := HomeNamed(c, env, home, homes);
           p == if h.1 then Local(Render(h.0 + rest)) else Complaint)
  {
    assert c != "";
    hide *;
    if c[0] == '~' {
      RelativeHome(c, rest, env, home, homes);
    } else if "\\~" <= c {
      RelativeQuoted(c, rest, env);
    } else {
      RelativePlain(c, rest, env);
    }
  }

  lemma RelativeHome(c: string, rest: seq<string>, env: Env, home: seq<string>, homes: string -> seq<string>)
    requires env.Ok() && Homes(env, home, homes) && Component(c) && Canonical(rest) && c[0] == '~'
    ensures var h := HomeNamed(c, env, home, homes);
      Parsed(Joined([c] + rest), env) == if h.1 then Local(Render(h.0 + rest)) else Complaint
  {
    var name := Joined([c] + rest);
    NameParts(c, rest);
    SlashAt(c, Slashed(rest));
    assert name[|c|..] == Slashed(rest) && name[1..|c|] == c[1..];
    WalkBoth(home, rest, 0, env);
    if c != "~" && |c| - 1 < 30 && env.homeOf(c[1..]).Dir? { WalkBoth(homes(c[1..]), rest, 0, env); }
  }

  lemma RelativeQuoted(c: string, rest: seq<string>, env: Env)
    requires env.Ok() && Component(c) && Canonical(rest) && "\\~" <= c
    ensures Parsed(Joined([c] + rest), env) == Local(Render(env.pwd + ([c[1..]] + rest)))
  {
    var name, ds := Joined([c] + rest), [c[1..]] + rest;
    NameParts(c, rest);
    assert name[1..] == c[1..] + Slashed(rest);
    Shorter(c);
    assert ds[1..] == rest && Joined(ds) == name[1..];
    forall i | 0 <= i < |ds| ensures Component(ds[i]) {}
    WalkDown(env.pwd, ds, 0, env);
  }

  lemma RelativePlain(c: string, rest: seq<string>, env: Env)
    requires env.Ok() && Component(c) && Canonical(rest) && c[0] != '~' && !("\\~" <= c)
    ensures Parsed(Joined([c] + rest), env) == Local(Render(env.pwd + ([c] + rest)))
  {
    var name, ds := Joined([c] + rest), [c] + rest;
    NameParts(c, rest);
    if |c| == 1 && rest != [] { SlashedJoined(rest); }
    assert |name| > 1 ==> name[1] == if |c| > 1 then c[1] else SLASH;
    forall i | 0 <= i < |ds| ensures Component(ds[i]) {}
    WalkDown(env.pwd, ds, 0, env);
  }

  lemma NameParts(c: string, rest: seq<string>)
    requires Component(c)
    ensures var name := Joined([c] + rest); name == c + Slashed(rest) && name != "" && name[0] == c[0] && c[0] != SLASH
  {
    assert ([c] + rest)[1..] == rest;
    assert c[0] in c;
  }

  lemma Shorter(c: string)
    requires Component(c) && "\\~" <= c
    ensures Component(c[1..])
  {
    assert c[1] == '~' && c[1..][0] == '~';
    forall k | 0 <= k < |c| - 1 ensures c[1..][k] != SLASH { assert c[k + 1] in c; }
  }

  /** Does the component survive PathParse? */
  predicate Plain(c: string, env: Env, home: seq<string>, homes: string -> seq<string>)
    requires c != ""
  {
    && !("\\~" <= c)
    && (c[0] == '~' ==> HomeNamed(c, env, home, homes) == (env.pwd + [c], true))
  }

  lemma RenderInjective(cs: seq<string>, ds: seq<string>, env: Env)
    requires Canonical(cs) && Canonical(ds) && Render(cs) == Render(ds)
    ensures cs == ds
  {
    WalkRender(cs, env);
    WalkRender(ds, env);
  }

  lemma WalkRender(cs: seq<string>, env: Env)
    requires Canonical(cs)
    ensures Walk([], Render(cs), 0, env) == cs
  {
    if cs == [] {
      LeadingSlash([], "", 0, env);
      assert [SLASH] + "" == [SLASH];
    } else {
      WalkDown([], cs, 0, env);
      assert [] + cs == cs;
    }
  }

  lemma PlainIs(c: string, env: Env, home: seq<string>, homes: string -> seq<string>)
    requires Component(c)
    ensures c != "" && (Plain(c, env, home, homes) <==>
      !("\\~" <= c) && (c[0] == '~' ==> HomeNamed(c, env, home, homes) == (env.pwd + [c], true)))
  {}

  lemma JoinCanonical(pwd: seq<string>, c: string, rest: seq<string>, env: Env)
    requires env.Ok() && pwd == env.pwd && Component(c) && Canonical(rest)
    ensures Canonical(pwd + ([c] + rest))
  {
    var all := pwd + ([c] + rest);
    forall i | 0 <= i < |all| ensures Component(all[i]) {}
  }

  lemma HomeCanonical(c: string, rest: seq<string>, env: Env, home: seq<string>, homes: string -> seq<string>)
    requires c != "" && Homes(env, home, homes) && Canonical(rest) && HomeNamed(c, env, home, homes).1
    ensures Canonical(HomeNamed(c, env, home, homes).0 + rest)
  {
    var all := HomeNamed(c, env, home, homes).0 + rest;
    forall i | 0 <= i < |all| ensures Component(all[i]) {}
  }

  /** A shown name below the current directory is read back exactly if its first component survives. */
  lemma RelativeBack(c: string, rest: seq<string>, env: Env, home: seq<string>, homes: string -> seq<string>)
    requires env.Ok() && Homes(env, home, homes) && Component(c) && Canonical(rest)
    ensures Parsed(Joined([c] + rest), env) == Local(Render(env.pwd + ([c] + rest))) <==> Plain(c, env, home, homes)
  {
    hide *;
    PlainIs(c, env, home, homes);
    Relative(c, rest, env, home, homes);
    var here := env.pwd + ([c] + rest);
    JoinCanonical(env.pwd, c, rest, env);
    if "\\~" <= c {
      Shorter(c);
      var there := env.pwd + ([c[1..]] + rest);
      JoinCanonical(env.pwd, c[1..], rest, env);
      assert here[|env.pwd|] == c && there[|env.pwd|] == c[1..];
      if Render(here) == Render(there) { RenderInjective(here, there, env); }
    } else if c[0] == '~' {
      var h := HomeNamed(c, env, home, homes);
      if h.1 {
        var there := h.0 + rest;
        HomeCanonical(c, rest, env, home, homes);
        assert here == (env.pwd + [c]) + rest;
        if Render(here) == Render(there) {
          RenderInjective(here, there, env);
          assert h.0 == there[..|h.0|] && env.pwd + [c] == here[..|env.pwd| + 1];
        }
      }
    }
  }

  /** Is a name shown relative to the current directory? */
  predicate ShownRelative(fname: string, pwd: string, home: string, okayHome: bool) {
    BelowDir(fname, pwd) && !(okayHome && |home| > |pwd| + 2 && BelowDir(fname, home))
  }

  /**
   * PathParse undoes pr_name, exactly unless the name is shown relative to the current directory and its first component
   * is then taken for something else: for a quoted `~`, or for a home directory that is elsewhere.
   */
  lemma ParseUndoesPrName(fs: seq<string>, okayHome: bool, env: Env, home: seq<string>, homes: string -> seq<string>)
    requires env.Ok() && Homes(env, home, homes) && Canonical(fs)
    ensures var fname, pwd := Render(fs), Render(env.pwd);
      Parsed(PrName(fname, pwd, env.home, okayHome), env) == Local(fname) <==>
        (ShownRelative(fname, pwd, env.home, okayHome) ==> |env.pwd| < |fs| && Plain(fs[|env.pwd|], env, home, homes))
  {
    hide *;
    var fname, pwd := Render(fs), Render(env.pwd);
    PrNameIs(fname, pwd, env.home, okayHome);
    if ShownRelative(fname, pwd, env.home, okayHome) {
      RelativeIs(fname, pwd, env.home, okayHome);
      EnvOk(env);
      RelativeTo(env.pwd, fs);
      var c, rest := fs[|env.pwd|], fs[|env.pwd| + 1..];
      assert fs[|env.pwd|..] == [c] + rest;
      assert fs == env.pwd + ([c] + rest);
      FirstOf(c, rest, env);
      PlainIs(c, env, home, homes);
      RelativeBack(c, rest, env, home, homes);
    } else {
      WholeBack(fs, env);
      if BelowDir(fname, env.home) { TildeBack(fs, env); }
    }
  }

  lemma EnvOk(env: Env)
    requires env.Ok()
    ensures Canonical(env.pwd)
  {}

  lemma PrNameIs(fname: string, pwd: string, home: string, okayHome: bool)
    ensures var name := PrName(fname, pwd, home, okayHome);
      if ShownRelative(fname, pwd, home, okayHome) then BelowDir(fname, pwd) && |pwd| < |fname| && name == fname[|pwd| + 1..]
      else name == fname || (BelowDir(fname, home) && |home| < |fname| && name == "~" + fname[|home|..])
  {}

  lemma RelativeIs(fname: string, pwd: string, home: string, okayHome: bool)
    requires ShownRelative(fname, pwd, home, okayHome)
    ensures BelowDir(fname, pwd)
  {}

  lemma FirstOf(c: string, rest: seq<string>, env: Env)
    requires Canonical([c] + rest)
    ensures Component(c) && c != "" && Canonical(rest)
  {
    assert ([c] + rest)[0] == c;
    forall i | 0 <= i < |rest| ensures Component(rest[i]) { assert ([c] + rest)[i + 1] == rest[i]; }
  }

  lemma WholeBack(fs: seq<string>, env: Env)
    requires Canonical(fs)
    ensures Parsed(Render(fs), env) == Local(Render(fs))
  {
    WalkRender(fs, env);
    hide Walk;
  }

  lemma TildeBack(fs: seq<string>, env: Env)
    requires Canonical(fs) && BelowDir(Render(fs), env.home)
    ensures Parsed("~" + Render(fs)[|env.home|..], env) == Local(Render(fs))
  {
    hide Walk;
    var fname := Render(fs);
    WalkRender(fs, env);
    var tail := fname[|env.home|..];
    SlashAt("~", tail);
    assert ("~" + tail)[1..] == tail;
    assert fname == env.home + tail;
  }

  /** What is left of a path below a directory. */
  lemma RelativeTo(ds: seq<string>, fs: seq<string>)
    requires Canonical(ds) && Canonical(fs) && BelowDir(Render(fs), Render(ds))
    ensures |ds| < |fs| && ds == fs[..|ds|] && Render(fs)[|Render(ds)| + 1..] == Joined(fs[|ds|..]) && Canonical(fs[|ds|..])
  {
    var f, d := Render(fs), Render(ds);
    if fs == [] || ds == [] {
      NoDoubleSlash(fs);
    } else {
      assert f[..|d| + 1] == d + [SLASH];
      Below(ds, fs);
      var rest := fs[|ds|..];
      assert fs == ds + rest;
      SlashedSplit(ds, rest);
      SlashedJoined(rest);
      assert f[|d| + 1..] == Joined(rest);
    }
  }

  lemma NoDoubleSlash(fs: seq<string>)
    requires Canonical(fs)
    ensures |Render(fs)| > 1 ==> Render(fs)[1] != SLASH
  {
    if fs != [] {
      assert Component(fs[0]);
      assert Render(fs)[1] == fs[0][0] && fs[0][0] in fs[0];
    }
  }

  /** A quoted tilde is lost: in directory `/h`, the file `/h/\~x` is shown as `\~x`, and that is read as `/h/~x`. */
  lemma QuotedTildeLost(env: Env)
    requires env.pwd == ["h"]
    ensures var name := PrName("/h/\\~x", Render(["h"]), "/u", true); name == "\\~x" && Parsed(name, env) == Local("/h/~x")
  {
    assert Slashed(["h"]) == "/h" by { assert ["h"][1..] == []; assert "/h" + "" == "/h"; }
    QuotedRead(env);
    hide Parsed, Walk;
  }

  lemma QuotedRead(env: Env)
    requires env.pwd == ["h"]
    ensures Parsed("\\~x", env) == Local("/h/~x")
  {
    WalkOne(["h"], "~x", "", 0, env);
    assert ["h", "~x"][1..] == ["~x"] && ["~x"][1..] == [];
    assert Slashed(["~x"]) == "/~x" + "";
    assert Slashed(["h", "~x"]) == "/h" + Slashed(["~x"]);
  }
}
