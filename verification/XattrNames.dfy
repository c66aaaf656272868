/** Attribute names and their prefixes (vfs/xattr.go). */
module XattrNames {
  import opened Bytes

  /** Go strings are byte strings. */
  type Name = seq<byte>

  function Ascii(s: string): Name {
    seq(|s|, i requires 0 <= i < |s| => (s[i] as int) % 256)
  }

  datatype Prefix = Prefix(index: byte, text: Name)

  const PREFIXES: seq<Prefix> := [
    Prefix(2, Ascii("system.posix_acl_access")),
    Prefix(3, Ascii("system.posix_acl_default")),
    Prefix(1, Ascii("user.")),
    Prefix(4, Ascii("trusted.")),
    Prefix(6, Ascii("security.")),
    Prefix(7, Ascii("system.")),
    Prefix(8, Ascii("system.richacl"))
  ]

  /** No two prefixes share an index, and none has index 0. */
  ghost predicate Proper(table: seq<Prefix>) {
    && (forall i | 0 <= i < |table| :: table[i].index != 0)
    && forall i, j | 0 <= i < j < |table| :: table[i].index != table[j].index
  }

  lemma PrefixesProper()
    ensures Proper(PREFIXES)
  {
  }

  predicate StartsWith(s: Name, p: Name) {
    |p| <= |s| && s[..|p|] == p
  }

  /** splitXAttrName: the first prefix of the table that matches. */
  function SplitBy(table: seq<Prefix>, full: Name): (byte, Name) {
    if table == [] then (0, full)
    else if StartsWith(full, table[0].text) then (table[0].index, full[|table[0].text|..])
    else SplitBy(table[1..], full)
  }

  function Split(full: Name): (byte, Name) {
    SplitBy(PREFIXES, full)
  }

  /** joinXAttrName: the prefix with this index, or none. */
  function JoinBy(table: seq<Prefix>, index: byte, suffix: Name): Name {
    if table == [] then suffix
    else if table[0].index == index then table[0].text + suffix
    else JoinBy(table[1..], index, suffix)
  }

  function Join(index: byte, suffix: Name): Name {
    JoinBy(PREFIXES, index, suffix)
  }

  /** An ASCII text is the bytes of its characters. */
  lemma AsciiIs(s: string)
    ensures |Ascii(s)| == |s|
    ensures forall i | 0 <= i < |s| && s[i] < 128 as char :: Ascii(s)[i] == s[i] as int
  {
  }

  /** No prefix of the table starts the name. */
  ghost predicate NoneStarts(table: seq<Prefix>, full: Name) {
    forall i | 0 <= i < |table| :: !StartsWith(full, table[i].text)
  }

  /** Prefix i is the first of the table that starts the name. */
  lemma {:induction false} FirstSplits(table: seq<Prefix>, full: Name, i: nat)
    requires i < |table| && NoneStarts(table[..i], full) && StartsWith(full, table[i].text)
    ensures SplitBy(table, full) == (table[i].index, full[|table[i].text|..])
  {
    if i > 0 {
      assert table[..i][0] == table[0] && table[1..][..i - 1] == table[..i][1..] && table[1..][i - 1] == table[i];
      FirstSplits(table[1..], full, i - 1);
    }
  }

  lemma {:induction false} NothingSplits(table: seq<Prefix>, full: Name)
    requires NoneStarts(table, full)
    ensures SplitBy(table, full) == (0, full)
  {
    if table != [] {
      assert forall i | 0 <= i < |table[1..]| :: table[1..][i] == table[i + 1];
      NothingSplits(table[1..], full);
    }
  }

  lemma StartByte(full: Name, p: Name, i: nat)
    requires StartsWith(full, p) && i < |p|
    ensures i < |full| && full[i] == p[i]
  {
    assert full[..|p|][i] == full[i];
  }

  /** A name cannot start with two texts that differ in one of their bytes. */
  lemma StartsApart(full: Name, p: Name, q: Name, i: nat)
    requires i < |p| && i < |q| && p[i] != q[i]
    ensures !(StartsWith(full, p) && StartsWith(full, q))
  {
    hide StartsWith;
    if StartsWith(full, p) && StartsWith(full, q) {
      StartByte(full, p, i);
      StartByte(full, q, i);
    }
  }

  lemma SplitsAt(full: Name, s: Name, i: nat)
    requires i < |PREFIXES| && full == PREFIXES[i].text + s && NoneStarts(PREFIXES[..i], full)
    ensures Split(full) == (PREFIXES[i].index, s)
  {
    hide PREFIXES;
    FirstSplits(PREFIXES, full, i);
  }

  const ACL_ACCESS := Ascii("system.posix_acl_access")
  const ACL_DEFAULT := Ascii("system.posix_acl_default")

  lemma Letters()
    ensures |Ascii("user.")| == 5 && Ascii("user.")[0] == 117 && |Ascii("trusted.")| == 8 && Ascii("trusted.")[0] == 116
    ensures |Ascii("security.")| == 9 && Ascii("security.")[0] == 115 && Ascii("security.")[1] == 101
    ensures |Ascii("system.")| == 7 && Ascii("system.")[0] == 115 && Ascii("system.")[1] == 121
    ensures |ACL_ACCESS| == 23 && ACL_ACCESS[0] == 115 && ACL_ACCESS[1] == 121 && ACL_ACCESS[17] == 97
    ensures |ACL_DEFAULT| == 24 && ACL_DEFAULT[0] == 115 && ACL_DEFAULT[1] == 121 && ACL_DEFAULT[17] == 100
  {
  }

  /** Which prefixes exclude each other. */
  lemma OneStarts(full: Name)
    ensures StartsWith(full, ACL_DEFAULT) ==> !StartsWith(full, ACL_ACCESS)
    ensures StartsWith(full, Ascii("user.")) ==> !StartsWith(full, ACL_ACCESS) && !StartsWith(full, ACL_DEFAULT)
    ensures StartsWith(full, Ascii("trusted.")) ==> !StartsWith(full, ACL_ACCESS) && !StartsWith(full, ACL_DEFAULT)
    ensures StartsWith(full, Ascii("security.")) ==> !StartsWith(full, ACL_ACCESS) && !StartsWith(full, ACL_DEFAULT)
    ensures StartsWith(full, Ascii("trusted.")) ==> !StartsWith(full, Ascii("user."))
    ensures StartsWith(full, Ascii("security.")) ==> !StartsWith(full, Ascii("user.")) && !StartsWith(full, Ascii("trusted."))
    ensures StartsWith(full, Ascii("system.")) ==> !StartsWith(full, Ascii("user.")) && !StartsWith(full, Ascii("trusted."))
    ensures StartsWith(full, Ascii("system.")) ==> !StartsWith(full, Ascii("security."))
  {
    hide StartsWith, Ascii, ACL_ACCESS, ACL_DEFAULT;
    Letters();
    var user, trusted, security, system := Ascii("user."), Ascii("trusted."), Ascii("security."), Ascii("system.");
    StartsApart(full, ACL_DEFAULT, ACL_ACCESS, 17);
    StartsApart(full, user, ACL_ACCESS, 0);
    StartsApart(full, user, ACL_DEFAULT, 0);
    StartsApart(full, trusted, ACL_ACCESS, 0);
    StartsApart(full, trusted, ACL_DEFAULT, 0);
    StartsApart(full, security, ACL_ACCESS, 1);
    StartsApart(full, security, ACL_DEFAULT, 1);
    StartsApart(full, trusted, user, 0);
    StartsApart(full, security, user, 0);
    StartsApart(full, security, trusted, 0);
    StartsApart(full, system, user, 0);
    StartsApart(full, system, trusted, 0);
    StartsApart(full, system, security, 1);
  }

  lemma Starts(p: Name, s: Name)
    ensures StartsWith(p + s, p)
  {
  }

  /** The indexes of the prefixes that name one: 1 user, 4 trusted, 6 security, 2 and 3 the lists of system.posix_acl_. */
  lemma SplitIs(s: Name)
    ensures Split(Ascii("user.") + s) == (1, s)
    ensures Split(Ascii("trusted.") + s) == (4, s)
    ensures Split(Ascii("security.") + s) == (6, s)
    ensures Split(Ascii("system.posix_acl_access") + s) == (2, s)
    ensures Split(Ascii("system.posix_acl_default") + s) == (3, s)
  {
    hide Split, StartsWith, Ascii;
    var acl, dflt := Ascii("system.posix_acl_access"), Ascii("system.posix_acl_default");
    var user, trusted, security := Ascii("user."), Ascii("trusted."), Ascii("security.");
    Starts(user, s); OneStarts(user + s); SplitsAt(user + s, s, 2);
    Starts(trusted, s); OneStarts(trusted + s); SplitsAt(trusted + s, s, 3);
    Starts(security, s); OneStarts(security + s); SplitsAt(security + s, s, 4);
    SplitsAt(acl + s, s, 0);
    Starts(dflt, s); OneStarts(dflt + s); SplitsAt(dflt + s, s, 1);
  }

  ghost predicate Prefixless(full: Name) {
    && !StartsWith(full, Ascii("user.")) && !StartsWith(full, Ascii("trusted."))
    && !StartsWith(full, Ascii("security.")) && !StartsWith(full, Ascii("system."))
  }

  /** Any other system name has index 7, so that 8 is never given; a name without a prefix has 0. */
  lemma SplitElse(full: Name, s: Name)
    requires !StartsWith(full, Ascii("system.posix_acl_access")) && !StartsWith(full, Ascii("system.posix_acl_default"))
    ensures full == Ascii("system.") + s ==> Split(full) == (7, s)
    ensures Prefixless(full) ==> Split(full) == (0, full)
  {
    hide Split, StartsWith, Ascii;
    var system := Ascii("system.");
    if full == system + s {
      Starts(system, s);
      OneStarts(full);
      SplitsAt(full, s, 5);
    } else if Prefixless(full) {
      Shorter(full);
      NothingStarts(full);
    }
  }

  lemma Shorter(full: Name)
    ensures StartsWith(full, Ascii("system.richacl")) ==> StartsWith(full, Ascii("system."))
  {
    var p, q := Ascii("system."), Ascii("system.richacl");
    assert q[..|p|] == p;
    if StartsWith(full, q) {
      assert full[..|q|][..|p|] == full[..|p|];
    }
  }

  lemma NothingStarts(full: Name)
    requires NoneStarts(PREFIXES, full)
    ensures Split(full) == (0, full)
  {
    hide PREFIXES;
    NothingSplits(PREFIXES, full);
  }

  /** The first prefix with the index is put in front. */
  lemma {:induction false} FirstJoins(table: seq<Prefix>, s: Name, i: nat)
    requires i < |table| && forall j | 0 <= j < i :: table[j].index != table[i].index
    ensures JoinBy(table, table[i].index, s) == table[i].text + s
  {
    if i > 0 {
      FirstJoins(table[1..], s, i - 1);
    }
  }

  lemma JoinsAt(s: Name, i: nat)
    requires i < |PREFIXES|
    ensures Join(PREFIXES[i].index, s) == PREFIXES[i].text + s
  {
    PrefixesProper();
    hide PREFIXES;
    FirstJoins(PREFIXES, s, i);
  }

  lemma JoinIs(s: Name, index: byte)
    ensures Join(1, s) == Ascii("user.") + s && Join(4, s) == Ascii("trusted.") + s && Join(6, s) == Ascii("security.") + s
    ensures Join(2, s) == Ascii("system.posix_acl_access") + s && Join(3, s) == Ascii("system.posix_acl_default") + s
    ensures Join(7, s) == Ascii("system.") + s && Join(8, s) == Ascii("system.richacl") + s
    ensures index == 0 || index == 5 || index > 8 ==> Join(index, s) == s
  {
    hide JoinBy, Ascii;
    JoinsAt(s, 0); JoinsAt(s, 1); JoinsAt(s, 2); JoinsAt(s, 3); JoinsAt(s, 4); JoinsAt(s, 5); JoinsAt(s, 6);
    if index == 0 || index == 5 || index > 8 {
      NoSuchIndex(PREFIXES, index, s);
    }
  }

  lemma {:induction false} IndexInTable(table: seq<Prefix>, full: Name)
    ensures SplitBy(table, full).0 == 0 || exists i :: 0 <= i < |table| && table[i].index == SplitBy(table, full).0
  {
    if table != [] && !StartsWith(full, table[0].text) {
      IndexInTable(table[1..], full);
      if SplitBy(table, full).0 != 0 {
        var i :| 0 <= i < |table[1..]| && table[1..][i].index == SplitBy(table[1..], full).0;
        assert table[i + 1].index == SplitBy(table, full).0;
      }
    }
  }

  lemma {:induction false} NoSuchIndex(table: seq<Prefix>, index: byte, suffix: Name)
    requires forall i | 0 <= i < |table| :: table[i].index != index
    ensures JoinBy(table, index, suffix) == suffix
  {
    if table != [] {
      assert forall i | 0 <= i < |table[1..]| :: table[1..][i] == table[i + 1];
      NoSuchIndex(table[1..], index, suffix);
    }
  }

  lemma {:induction false} JoinSplitBy(table: seq<Prefix>, full: Name)
    requires Proper(table)
    ensures JoinBy(table, SplitBy(table, full).0, SplitBy(table, full).1) == full
  {
    if table != [] && !StartsWith(full, table[0].text) {
      var rest := table[1..];
      assert forall i | 0 <= i < |rest| :: rest[i] == table[i + 1];
      JoinSplitBy(rest, full);
      IndexInTable(rest, full);
      var s := SplitBy(rest, full);
      if table[0].index == s.0 {
        assert false;
      }
    } else if table != [] {
      assert table[0].text + full[|table[0].text|..] == full;
    }
  }

  /** Splitting a name and joining the parts gives the name back. */
  lemma JoinSplit(full: Name)
    ensures Join(Split(full).0, Split(full).1) == full
  {
    hide PREFIXES;
    PrefixesProper();
    JoinSplitBy(PREFIXES, full);
  }

  /** Different names split differently. */
  lemma SplitInjective(a: Name, b: Name)
    requires Split(a) == Split(b)
    ensures a == b
  {
    hide Split, Join;
    JoinSplit(a);
    JoinSplit(b);
  }

  lemma {:induction false} JoinPrefix(table: seq<Prefix>, index: byte, suffix: Name, n: nat)
    requires n <= |suffix|
    ensures JoinBy(table, index, suffix[..n]) <= JoinBy(table, index, suffix)
  {
    if table != [] && table[0].index != index {
      JoinPrefix(table[1..], index, suffix, n);
    }
  }

  lemma LongerStarts(a: Name, b: Name, p: Name)
    requires a <= b
    ensures StartsWith(a, p) ==> StartsWith(b, p)
  {
    if |p| <= |a| {
      assert b[..|p|] == a[..|p|];
    }
  }

  lemma {:induction false} SplitCutBy(table: seq<Prefix>, full: Name, n: nat)
    requires Proper(table) && n <= |SplitBy(table, full).1|
    ensures var s := SplitBy(table, full);
            SplitBy(table, JoinBy(table, s.0, s.1[..n])) == (s.0, s.1[..n])
  {
    if table != [] {
      var t, rest, s := table[0], table[1..], SplitBy(table, full);
      var cut := JoinBy(table, s.0, s.1[..n]);
      assert forall i | 0 <= i < |rest| :: rest[i] == table[i + 1];
      if StartsWith(full, t.text) {
        assert cut[..|t.text|] == t.text && cut[|t.text|..] == s.1[..n];
      } else {
        IndexInTable(rest, full);
        if t.index == s.0 { assert false; }
        JoinSplitBy(rest, full);
        JoinPrefix(rest, s.0, s.1, n);
        SplitCutBy(rest, full, n);
        LongerStarts(cut, full, t.text);
      }
    }
  }

  /** Of a name whose suffix was cut short, the parts are the cut parts. */
  lemma SplitCut(full: Name, n: nat)
    requires n <= |Split(full).1|
    ensures Split(Join(Split(full).0, Split(full).1[..n])) == (Split(full).0, Split(full).1[..n])
  {
    hide PREFIXES;
    PrefixesProper();
    SplitCutBy(PREFIXES, full, n);
  }
}
