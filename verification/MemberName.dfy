/** The names of archive members: which are restored, and under what path. */
module MemberName {
  import opened Common
  import opened Text

  const ALLOWED_PREFIXES: seq<string> := [
    "etc/mailstack/", "etc/postfix/", "etc/dovecot/", "etc/opendkim/",
    "var/vmail/", "var/lib/mailstack/", "root/Maildir/", "home/"
  ]

  function Slashes(s: string): (r: string)
    ensures |r| == |s|
    ensures forall i :: 0 <= i < |s| ==> r[i] == if s[i] == '\\' then '/' else s[i]
  {
    seq(|s|, i requires 0 <= i < |s| => if s[i] == '\\' then '/' else s[i])
  }

  predicate IsSlash(c: char) {
    c == '/'
  }

  function JoinBy(parts: seq<string>, sep: char): string
    requires parts != []
  {
    if |parts| == 1 then parts[0] else parts[0] + [sep] + JoinBy(parts[1..], sep)
  }

  /** No empty component, and none that means this or the parent directory. */
  predicate ProperParts(parts: seq<string>) {
    forall i :: 0 <= i < |parts| ==> parts[i] !in {"", ".", ".."}
  }

  /** Inside an allowed directory, or that directory itself. */
  predicate Allowed(name: string) {
    exists i :: 0 <= i < |ALLOWED_PREFIXES| &&
      (ALLOWED_PREFIXES[i] <= name || name + "/" == ALLOWED_PREFIXES[i])
  }

  /** A name below `home/` must belong to a managed user. */
  predicate OwnerManaged(name: string, users: set<string>) {
    "home/" <= name ==> var owner := Split(name[5..], '/')[0]; owner != [] && owner in users
  }

  /** The restored path of a member, or none when it is refused. */
  function Normalize(raw: string, users: set<string>): Option<string> {
    var name := TrimStartBy(Slashes(Trim(raw)), IsSlash);
    var parts := Split(name, '/');
    if name == [] || !ProperParts(parts) then None
    else
      var normalized := JoinBy(parts, '/');
      if Allowed(normalized) && OwnerManaged(normalized, users) then Some(normalized) else None
  }

  lemma {:induction false} JoinUndoesSplit(s: string, sep: char)
    ensures JoinBy(Split(s, sep), sep) == s
  {
    if s != [] {
      JoinUndoesSplit(s[1..], sep);
      var rest := Split(s[1..], sep);
      if s[0] == sep {
        assert ([[]] + rest)[1..] == rest;
        assert [] + [sep] + JoinBy(rest, sep) == s;
      } else {
        JoinFront(s[0], rest, sep);
        assert s == [s[0]] + s[1..];
        hide Split, JoinBy;
      }
    }
  }

  lemma JoinFront(c: char, rest: seq<string>, sep: char)
    requires rest != []
    ensures JoinBy([[c] + rest[0]] + rest[1..], sep) == [c] + JoinBy(rest, sep)
  {
    var parts := [[c] + rest[0]] + rest[1..];
    assert parts[1..] == rest[1..];
    if |rest| > 1 {
      var more := JoinBy(rest[1..], sep);
      assert ([c] + rest[0]) + [sep] + more == [c] + (rest[0] + [sep] + more);
    }
  }

  /** A name the restore may write to. */
  predicate Restorable(name: string, users: set<string>) {
    && name != [] && '\\' !in name && !IsWhitespace(name[|name| - 1])
    && ProperParts(Split(name, '/')) && Allowed(name) && OwnerManaged(name, users)
  }

  lemma {:induction false} TrimStartEnds(s: string, p: char -> bool)
    ensures var r := TrimStartBy(s, p); |r| <= |s| && r == s[|s| - |r|..] && (r != [] ==> !p(r[0]))
  {
    if s != [] && p(s[0]) {
      TrimStartEnds(s[1..], p);
    }
  }

  lemma {:induction false} TrimEndEnds(s: string, p: char -> bool)
    ensures var r := TrimEndBy(s, p); |r| <= |s| && r == s[..|r|] && (r != [] ==> !p(r[|r| - 1]))
  {
    if s != [] && p(s[|s| - 1]) {
      TrimEndEnds(s[..|s| - 1], p);
    }
  }

  lemma PrefixStart(i: nat)
    requires i < |ALLOWED_PREFIXES|
    ensures |ALLOWED_PREFIXES[i]| > 1 && ALLOWED_PREFIXES[i][0] in {'e', 'v', 'r', 'h'}
  {}

  /** A leading letter and a separator further on: neither trimmed nor refused. */
  lemma AllowedStart(name: string)
    requires name != [] && Allowed(name)
    ensures !IsWhitespace(name[0]) && !IsSlash(name[0])
  {
    var i :| 0 <= i < |ALLOWED_PREFIXES| && (ALLOWED_PREFIXES[i] <= name || name + "/" == ALLOWED_PREFIXES[i]);
    PrefixStart(i);
    hide ALLOWED_PREFIXES;
    assert name[0] == (name + "/")[0] == ALLOWED_PREFIXES[i][0];
  }

  /** Exactly the restorable names are results, and each of them is its own result. */
  lemma NormalizeResults(name: string, users: set<string>)
    ensures Restorable(name, users) <==> exists raw :: Normalize(raw, users) == Some(name)
    ensures Restorable(name, users) <==> Normalize(name, users) == Some(name)
  {
    forall raw | Normalize(raw, users) == Some(name) ensures Restorable(name, users) {
      ResultIsRestorable(raw, name, users);
    }
    if Restorable(name, users) {
      RestorableIsFixed(name, users);
    }
  }

  lemma ResultIsRestorable(raw: string, name: string, users: set<string>)
    requires Normalize(raw, users) == Some(name)
    ensures Restorable(name, users)
  {
    var trimmed := Trim(raw);
    TrimEndEnds(TrimStartBy(raw, IsWhitespace), IsWhitespace);
    var slashed := Slashes(trimmed);
    TrimStartEnds(slashed, IsSlash);
    var r := TrimStartBy(slashed, IsSlash);
    JoinUndoesSplit(r, '/');
    hide Split, Allowed, OwnerManaged, ProperParts, TrimStartBy, TrimEndBy, JoinBy;
    assert r == name;
    assert name[|name| - 1] == slashed[|slashed| - 1];
    assert forall i :: 0 <= i < |name| ==> name[i] == slashed[|slashed| - |name| + i];
  }

  lemma RestorableIsFixed(name: string, users: set<string>)
    requires Restorable(name, users)
    ensures Normalize(name, users) == Some(name)
  {
    AllowedStart(name);
    TrimNothing(name, IsWhitespace);
    assert Slashes(name) == name;
    JoinUndoesSplit(name, '/');
    hide Split, Allowed, OwnerManaged, ProperParts, TrimEndBy, JoinBy;
    assert TrimStartBy(name, IsSlash) == name;
  }

  // ---------------------------------------------------------------- by components

  predicate NoSlashes(parts: seq<string>) {
    forall i :: 0 <= i < |parts| ==> '/' !in parts[i]
  }

  lemma {:induction false} SplitUndoesJoin(parts: seq<string>)
    requires parts != [] && NoSlashes(parts)
    ensures Split(JoinBy(parts, '/'), '/') == parts
  {
    if |parts| == 1 {
      SplitNone(parts[0], '/');
      assert parts == [parts[0]];
    } else {
      assert NoSlashes(parts[1..]);
      SplitUndoesJoin(parts[1..]);
      SplitAt(parts[0], '/', JoinBy(parts[1..], '/'));
      assert parts == [parts[0]] + parts[1..];
    }
  }

  lemma {:induction false} SplitHasNoSlashes(s: string)
    ensures NoSlashes(Split(s, '/'))
  {
    if s != [] { SplitHasNoSlashes(s[1..]); }
  }

  lemma {:induction false} JoinAppends(a: seq<string>, b: seq<string>)
    requires a != [] && b != []
    ensures JoinBy(a + b, '/') == JoinBy(a, '/') + "/" + JoinBy(b, '/')
  {
    if |a| == 1 {
      assert (a + b)[1..] == b && (a + b)[0] == a[0];
    } else {
      assert (a + b)[1..] == a[1..] + b && (a + b)[0] == a[0];
      JoinAppends(a[1..], b);
      FourJoined(a[0], JoinBy(a[1..], '/'), JoinBy(b, '/'));
    }
  }

  lemma FourJoined(a: string, b: string, c: string)
    ensures a + "/" + (b + "/" + c) == (a + "/" + b) + "/" + c
  {}

  /** A directory contains a name, or is it, exactly when its components begin those of the name. */
  lemma InsideByParts(dir: seq<string>, parts: seq<string>)
    requires dir != [] && parts != [] && NoSlashes(dir) && NoSlashes(parts)
    ensures var d, name := JoinBy(dir, '/') + "/", JoinBy(parts, '/');
            d <= name || name + "/" == d <==> dir <= parts
  {
    var d, name := JoinBy(dir, '/') + "/", JoinBy(parts, '/');
    SplitUndoesJoin(parts);
    SplitUndoesJoin(dir);
    if d <= name {
      var rest := name[|d|..];
      assert name == JoinBy(dir, '/') + "/" + rest;
      SplitHasNoSlashes(rest);
      JoinUndoesSplit(rest, '/');
      JoinAppends(dir, Split(rest, '/'));
      assert NoSlashes(dir + Split(rest, '/'));
      SplitUndoesJoin(dir + Split(rest, '/'));
    }
    if name + "/" == d {
      assert name == (name + "/")[..|name|] == JoinBy(dir, '/');
    }
    if dir <= parts {
      var more := parts[|dir|..];
      assert parts == dir + more;
      if more == [] { assert parts == dir; } else { JoinAppends(dir, more); }
    }
    hide JoinBy, Split;
  }

  /** The directories a restore may write to, and the home directories of managed users. */
  predicate Managed(parts: seq<string>, users: set<string>) {
    || ["etc", "mailstack"] <= parts || ["etc", "postfix"] <= parts || ["etc", "dovecot"] <= parts
    || ["etc", "opendkim"] <= parts || ["var", "vmail"] <= parts || ["var", "lib", "mailstack"] <= parts
    || ["root", "Maildir"] <= parts || parts == ["home"] || (["home"] <= parts && |parts| > 1 && parts[1] in users)
  }

  lemma DirsByParts()
    ensures |ALLOWED_PREFIXES| == 8
    ensures ALLOWED_PREFIXES[0] == JoinBy(["etc", "mailstack"], '/') + "/"
    ensures ALLOWED_PREFIXES[1] == JoinBy(["etc", "postfix"], '/') + "/"
    ensures ALLOWED_PREFIXES[2] == JoinBy(["etc", "dovecot"], '/') + "/"
    ensures ALLOWED_PREFIXES[3] == JoinBy(["etc", "opendkim"], '/') + "/"
    ensures ALLOWED_PREFIXES[4] == JoinBy(["var", "vmail"], '/') + "/"
    ensures ALLOWED_PREFIXES[5] == JoinBy(["var", "lib", "mailstack"], '/') + "/"
    ensures ALLOWED_PREFIXES[6] == JoinBy(["root", "Maildir"], '/') + "/"
    ensures ALLOWED_PREFIXES[7] == JoinBy(["home"], '/') + "/"
  {
    JoinsTwo("etc", "mailstack");
    JoinsTwo("etc", "postfix");
    JoinsTwo("etc", "dovecot");
    JoinsTwo("etc", "opendkim");
    JoinsTwo("var", "vmail");
    JoinsTwo("root", "Maildir");
    assert ["var", "lib", "mailstack"] == ["var"] + ["lib", "mailstack"];
    JoinsTwo("lib", "mailstack");
    assert ["var", "lib", "mailstack"][1..] == ["lib", "mailstack"];
    hide JoinBy;
  }

  lemma JoinsTwo(a: string, b: string)
    ensures JoinBy([a, b], '/') == a + "/" + b
  {
    assert [a, b][1..] == [b];
  }

  lemma AllowedByParts(parts: seq<string>)
    requires parts != [] && NoSlashes(parts)
    ensures Allowed(JoinBy(parts, '/')) <==>
            || ["etc", "mailstack"] <= parts || ["etc", "postfix"] <= parts || ["etc", "dovecot"] <= parts
            || ["etc", "opendkim"] <= parts || ["var", "vmail"] <= parts || ["var", "lib", "mailstack"] <= parts
            || ["root", "Maildir"] <= parts || ["home"] <= parts
  {
    hide *;
    var name := JoinBy(parts, '/');
    DirsByParts();
    OneOfEight(name);
    DirCase(0, ["etc", "mailstack"], parts);
    DirCase(1, ["etc", "postfix"], parts);
    DirCase(2, ["etc", "dovecot"], parts);
    DirCase(3, ["etc", "opendkim"], parts);
    DirCase(4, ["var", "vmail"], parts);
    DirCase(5, ["var", "lib", "mailstack"], parts);
    DirCase(6, ["root", "Maildir"], parts);
    DirCase(7, ["home"], parts);
  }

  predicate InDir(i: nat, name: string)
    requires i < |ALLOWED_PREFIXES|
  {
    ALLOWED_PREFIXES[i] <= name || name + "/" == ALLOWED_PREFIXES[i]
  }

  lemma OneOfEight(name: string)
    requires |ALLOWED_PREFIXES| == 8
    ensures Allowed(name) <==>
            InDir(0, name) || InDir(1, name) || InDir(2, name) || InDir(3, name)
            || InDir(4, name) || InDir(5, name) || InDir(6, name) || InDir(7, name)
  {
    hide ALLOWED_PREFIXES;
    assert Allowed(name) <==> exists i: nat :: i < 8 && InDir(i, name) by {
      if i: nat :| i < 8 && InDir(i, name) { assert InDir(i, name); }
      if i :| 0 <= i < |ALLOWED_PREFIXES| && (ALLOWED_PREFIXES[i] <= name || name + "/" == ALLOWED_PREFIXES[i]) {
        assert InDir(i, name);
      }
    }
  }

  lemma DirCase(i: nat, dir: seq<string>, parts: seq<string>)
    requires i < |ALLOWED_PREFIXES| && dir != [] && parts != [] && NoSlashes(parts)
    requires ALLOWED_PREFIXES[i] == JoinBy(dir, '/') + "/" && |dir| <= 3
    requires forall k :: 0 <= k < |dir| ==> '/' !in dir[k]
    ensures InDir(i, JoinBy(parts, '/')) <==> dir <= parts
  {
    hide ALLOWED_PREFIXES, JoinBy;
    InsideByParts(dir, parts);
  }

  lemma OwnerByParts(parts: seq<string>, users: set<string>)
    requires parts != [] && NoSlashes(parts) && ProperParts(parts)
    ensures OwnerManaged(JoinBy(parts, '/'), users) <==>
            (["home"] <= parts && |parts| > 1 ==> parts[1] in users)
  {
    var name := JoinBy(parts, '/');
    HomeDir(parts);
    if ["home"] <= parts && |parts| > 1 {
      OwnerIsSecond(parts);
      hide JoinBy, Split, NoSlashes;
      assert parts[1] != "";
    } else if parts == ["home"] {
      assert name == "home";
    } else {
      assert !(["home"] <= parts);
    }
  }

  lemma HomeDir(parts: seq<string>)
    requires parts != [] && NoSlashes(parts)
    ensures "home/" <= JoinBy(parts, '/') ==> ["home"] <= parts
  {
    InsideByParts(["home"], parts);
    assert JoinBy(["home"], '/') + "/" == "home/";
  }

  lemma OwnerIsSecond(parts: seq<string>)
    requires |parts| > 1 && ["home"] <= parts && NoSlashes(parts)
    ensures var name := JoinBy(parts, '/'); "home/" <= name && Split(name[5..], '/')[0] == parts[1]
  {
    var more := parts[1..];
    assert parts == ["home"] + more && NoSlashes(more);
    JoinAppends(["home"], more);
    SplitUndoesJoin(more);
    assert JoinBy(["home"], '/') == "home";
    hide Split, JoinBy;
    assert JoinBy(parts, '/')[5..] == JoinBy(more, '/');
  }

  /** A name is its own result exactly when it is made of components, none of them empty, `.` or
      `..`, without backslashes or a blank at the end, in a managed place. Every result is such
      a name. */
  lemma ResultsByParts(parts: seq<string>, users: set<string>)
    requires parts != [] && NoSlashes(parts)
    ensures var name := JoinBy(parts, '/');
            Normalize(name, users) == Some(name) <==>
            && (forall i :: 0 <= i < |parts| ==> parts[i] != "" && parts[i] != "." && parts[i] != "..")
            && '\\' !in name && (name != [] ==> !IsWhitespace(name[|name| - 1])) && Managed(parts, users)
  {
    var name := JoinBy(parts, '/');
    NormalizeResults(name, users);
    SplitUndoesJoin(parts);
    AllowedByParts(parts);
    if ProperParts(parts) {
      OwnerByParts(parts, users);
      NotEmpty(parts);
    }
    hide Normalize, Split, Allowed, OwnerManaged, JoinBy, NoSlashes;
    HomeByParts(parts, users);
  }

  lemma NotEmpty(parts: seq<string>)
    requires parts != [] && ProperParts(parts)
    ensures JoinBy(parts, '/') != []
  {}

  lemma HomeByParts(parts: seq<string>, users: set<string>)
    requires parts != []
    ensures parts == ["home"] || (["home"] <= parts && |parts| > 1 && parts[1] in users) <==>
            ["home"] <= parts && (["home"] <= parts && |parts| > 1 ==> parts[1] in users)
  {
    if ["home"] <= parts && |parts| == 1 { assert parts == ["home"]; }
  }

  /** The name behind `k` slashes or backslashes, with backslashes for any of its slashes. */
  predicate Writes(raw: string, k: nat, name: string) {
    && |raw| == k + |name| && (forall i :: 0 <= i < k ==> raw[i] == '/' || raw[i] == '\\')
    && forall i :: 0 <= i < |name| ==> raw[k + i] == name[i] || (name[i] == '/' && raw[k + i] == '\\')
  }

  lemma {:induction false} LeadingSlashes(s: string, k: nat)
    requires k <= |s| && (forall i :: 0 <= i < k ==> s[i] == '/') && (k < |s| ==> s[k] != '/')
    ensures TrimStartBy(s, IsSlash) == s[k..]
  {
    if k > 0 {
      LeadingSlashes(s[1..], k - 1);
      assert s[1..][k - 1..] == s[k..];
    } else {
      assert s[0..] == s;
    }
  }

  /** Every restorable name is read from all the ways to write it. */
  lemma WrittenNameReads(raw: string, k: nat, name: string, users: set<string>)
    requires Restorable(name, users) && Writes(raw, k, name)
    ensures Normalize(raw, users) == Some(name)
  {
    AllowedStart(name);
    JoinUndoesSplit(name, '/');
    hide Split, Allowed, OwnerManaged, ProperParts, JoinBy;
    assert raw[|raw| - 1] == name[|name| - 1] || raw[|raw| - 1] == '\\';
    assert k > 0 ==> raw[0] == '/' || raw[0] == '\\';
    assert k == 0 ==> raw[0] == name[0];
    TrimNothing(raw, IsWhitespace);
    var s := Slashes(raw);
    assert s[k] == name[0];
    LeadingSlashes(s, k);
    assert s[k..] == name;
  }
}
