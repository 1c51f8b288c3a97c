/** Windows paths as text: joining, the contract form, and the component-wise prefix test. */
module Paths {

  predicate Separator(c: char) {
    c == '\\' || c == '/'
  }

  /** `Path::join` with a single component. */
  function Join(base: string, name: string): string {
    if |base| > 0 && Separator(base[|base| - 1]) then base + name else base + "\\" + name
  }

  const VERBATIM := "\\\\?\\"
  const VERBATIM_UNC := "\\\\?\\UNC\\"

  /** `contract_path`: strips the Win32 verbatim prefix. */
  function ContractPath(path: string): string {
    if VERBATIM_UNC <= path then "\\\\" + path[|VERBATIM_UNC|..]
    else if VERBATIM <= path then path[|VERBATIM|..]
    else path
  }

  function FullPath(root: string, names: seq<string>): string
    decreases |names|
  {
    if |names| == 0 then root else FullPath(Join(root, names[0]), names[1..])
  }

  // ---------------------------------------------------------------- components

  function Flush(component: string): seq<string> {
    if component == "" || component == "." then [] else [component]
  }

  function Split(s: string, current: string): seq<string> {
    if |s| == 0 then Flush(current)
    else if Separator(s[0]) then Flush(current) + Split(s[1..], "")
    else Split(s[1..], current + [s[0]])
  }

  function Components(s: string): seq<string> {
    Split(s, "")
  }

  /** `Path::starts_with`. */
  predicate StartsWith(path: string, base: string) {
    Components(base) <= Components(path)
  }

  lemma {:induction false} SplitAtSeparator(a: string, separator: char, b: string, current: string)
    requires Separator(separator)
    ensures Split(a + [separator] + b, current) == Split(a, current) + Split(b, "")
    decreases |a|
  {
    var s := a + [separator] + b;
    if |a| == 0 {
      assert s == [separator] + b && s[1..] == b;
    } else {
      assert s[0] == a[0] && s[1..] == a[1..] + [separator] + b;
      SplitAtSeparator(a[1..], separator, b, if Separator(a[0]) then "" else current + [a[0]]);
    }
  }

  lemma JoinComponents(base: string, name: string)
    ensures Components(Join(base, name)) == Components(base) + Components(name)
  {
    if |base| > 0 && Separator(base[|base| - 1]) {
      var init := base[..|base| - 1];
      SplitAtSeparator(init, base[|base| - 1], name, "");
      SplitAtSeparator(init, base[|base| - 1], "", "");
      assert base == init + [base[|base| - 1]] + "";
      assert base + name == init + [base[|base| - 1]] + name;
    } else {
      SplitAtSeparator(base, '\\', name, "");
    }
  }

  /** Every directory on the way to a file contains it, component-wise. */
  lemma {:induction false} AncestorContains(root: string, names: seq<string>, n: nat)
    requires n <= |names|
    ensures StartsWith(FullPath(root, names), FullPath(root, names[..n]))
    ensures Components(root) <= Components(FullPath(root, names))
    decreases |names|
  {
    if |names| > 0 {
      JoinComponents(root, names[0]);
      if n > 0 {
        assert names[..n][1..] == names[1..][..n - 1];
        AncestorContains(Join(root, names[0]), names[1..], n - 1);
      } else {
        AncestorContains(Join(root, names[0]), names[1..], 0);
      }
    }
  }

  // ---------------------------------------------------------------- the contract form of paths below a root

  /** The root is a real path, not a fragment of the verbatim marker itself. */
  predicate ProperRoot(root: string) {
    |root| > 0 && !(root < VERBATIM_UNC)
  }

  lemma MarkerOfLonger(root: string, rest: string, marker: string)
    requires !(root < marker)
    ensures marker <= root + rest <==> marker <= root
    ensures !(root + rest < marker)
  {
    var longer := root + rest;
    assert |root| <= |marker| ==> marker <= longer ==> marker[..|root|] == longer[..|root|];
    assert forall i :: 0 <= i < |root| ==> longer[i] == root[i];
    assert longer[..|root|] == root;
    assert |root| >= |marker| ==> longer[..|marker|] == root[..|marker|];
  }

  lemma ContractOfLonger(root: string, rest: string)
    requires ProperRoot(root)
    ensures ContractPath(root + rest) == ContractPath(root) + rest
    ensures ProperRoot(root + rest)
  {
    assert VERBATIM <= VERBATIM_UNC;
    MarkerOfLonger(root, rest, VERBATIM_UNC);
    assert !(root < VERBATIM);
    MarkerOfLonger(root, rest, VERBATIM);
    if VERBATIM_UNC <= root {
      assert (root + rest)[8..] == root[8..] + rest;
    } else if VERBATIM <= root {
      assert (root + rest)[4..] == root[4..] + rest;
    }
  }

  lemma ContractKeepsEnd(root: string)
    requires |root| > 0 && |ContractPath(root)| > 0
    ensures ContractPath(root)[|ContractPath(root)| - 1] == root[|root| - 1]
  {
    if VERBATIM_UNC <= root && |root| == 8 { assert root == VERBATIM_UNC; }
  }

  lemma RootNotEmpty(root: string)
    requires ProperRoot(root)
    ensures |root| > 0
  {
  }

  lemma ContractOfJoin(root: string, name: string)
    requires ProperRoot(root) && ContractPath(root) != ""
    ensures ContractPath(Join(root, name)) == Join(ContractPath(root), name)
    ensures ProperRoot(Join(root, name)) && ContractPath(Join(root, name)) != ""
  {
    hide ContractPath, ProperRoot;
    assert |root| > 0 by { RootNotEmpty(root); }
    ContractKeepsEnd(root);
    ContractOfLonger(root, name);
    ContractOfLonger(root, "\\" + name);
    assert root + ("\\" + name) == root + "\\" + name;
    assert ContractPath(root) + ("\\" + name) == ContractPath(root) + "\\" + name;
  }

  lemma {:induction false} ContractOfFullPath(root: string, names: seq<string>)
    requires ProperRoot(root) && ContractPath(root) != ""
    ensures ContractPath(FullPath(root, names)) == FullPath(ContractPath(root), names)
    decreases |names|
  {
    if |names| > 0 {
      ContractOfJoin(root, names[0]);
      ContractOfFullPath(Join(root, names[0]), names[1..]);
    }
  }

  // ---------------------------------------------------------------- roots whose contract form is final

  /** The path is its own contract form. */
  predicate InForm(path: string) {
    ContractPath(path) == path
  }

  /** A real root whose contract form has no verbatim marker left. */
  predicate StableRoot(root: string) {
    ProperRoot(root) && ContractPath(root) != "" && ProperRoot(ContractPath(root)) && InForm(ContractPath(root))
  }

  /** The contract form of every path below a stable root is final. */
  lemma StableBelow(root: string, names: seq<string>)
    requires StableRoot(root)
    ensures InForm(ContractPath(FullPath(root, names)))
  {
    hide ContractPath, FullPath, ProperRoot;
    ContractOfFullPath(root, names);
    ContractOfFullPath(ContractPath(root), names);
  }

  lemma StableJoin(root: string, name: string)
    requires StableRoot(root)
    ensures InForm(ContractPath(Join(root, name)))
  {
    StableBelow(root, [name]);
    assert [name][1..] == [];
    assert FullPath(root, [name]) == FullPath(Join(root, name), []) == Join(root, name);
  }

  /** What `canonicalize` returns for a directory on a drive is stable. */
  lemma DriveRootIsStable(drive: char, rest: string)
    requires !Separator(drive)
    ensures StableRoot(VERBATIM + [drive, ':', '\\'] + rest)
    ensures ContractPath(VERBATIM + [drive, ':', '\\'] + rest) == [drive, ':', '\\'] + rest
  {
    var plain := [drive, ':', '\\'] + rest;
    var root := VERBATIM + [drive, ':', '\\'] + rest;
    assert root == VERBATIM + plain && root[4] == drive && root[5] == ':' && root[4..] == plain;
    assert plain[0] == drive && VERBATIM[0] == '\\' && VERBATIM_UNC[0] == '\\';
    assert VERBATIM_UNC[5] == 'N';
  }

  /** The contract form of some roots is not final: the marker is stripped once. */
  lemma DoubledMarkerIsNotStable()
    ensures ProperRoot(VERBATIM + VERBATIM + "C:") && !StableRoot(VERBATIM + VERBATIM + "C:")
  {
    var root := VERBATIM + VERBATIM + "C:";
    assert root[4] == '\\' && VERBATIM_UNC[4] == 'U';
    assert root[4..] == VERBATIM + "C:" && (VERBATIM + "C:")[4] == 'C' && (VERBATIM + "C:")[4..] == "C:";
  }

  /** What `canonicalize` returns for a directory of a share contracts to the share's plain path. */
  lemma ShareRootContracts(rest: string)
    ensures ContractPath(VERBATIM_UNC + rest) == "\\\\" + rest
  {
  }

  // ---------------------------------------------------------------- containment, exactly

  /** An ordinary name of a file or directory. */
  predicate Plain(name: string) {
    name != "" && name != "." && forall c <- name :: !Separator(c)
  }

  lemma {:induction false} SplitPlain(name: string, current: string)
    requires forall c <- name :: !Separator(c)
    ensures Split(name, current) == Flush(current + name)
    decreases |name|
  {
    if |name| > 0 {
      SplitPlain(name[1..], current + [name[0]]);
      assert current + [name[0]] + name[1..] == current + name;
    } else {
      assert current + name == current;
    }
  }

  lemma PlainComponents(name: string)
    requires Plain(name)
    ensures Components(name) == [name]
  {
    SplitPlain(name, "");
    assert "" + name == name;
  }

  /** The components of a path below a root are the root's and the names. */
  lemma {:induction false} ComponentsBelow(root: string, names: seq<string>)
    requires forall name <- names :: Plain(name)
    ensures Components(FullPath(root, names)) == Components(root) + names
    decreases |names|
  {
    hide Join, Components, Plain;
    if |names| > 0 {
      assert names[0] in names;
      PlainComponents(names[0]);
      JoinComponents(root, names[0]);
      ComponentsBelow(Join(root, names[0]), names[1..]);
      assert [names[0]] + names[1..] == names;
    }
  }

  /** One path below a root contains another exactly if its names come first. */
  lemma ContainsExactly(root: string, names: seq<string>, others: seq<string>)
    requires (forall name <- names :: Plain(name)) && (forall name <- others :: Plain(name))
    ensures StartsWith(FullPath(root, names), FullPath(root, others)) <==> others <= names
  {
    hide FullPath, Components;
    ComponentsBelow(root, names);
    ComponentsBelow(root, others);
    var base := Components(root);
    if base + others <= base + names {
      assert |others| <= |names|;
      forall i | 0 <= i < |others| ensures others[i] == names[i] {
        assert (base + others)[|base| + i] == (base + names)[|base| + i];
      }
    }
  }
}
