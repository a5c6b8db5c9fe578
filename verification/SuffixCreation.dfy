/**
 Creating missing suffix entries in an LDAP directory. The directory obeys the add rule of RFC 4511,
 section 4.7: the entry must not exist and its superior must, except at the top of a naming context;
 it may refuse any add, and fail to show an entry when it is read, unless it is reliable.
 */
module SuffixCreation {
  datatype Rdn = Rdn(attribute: string, value: string)

  /** A distinguished name, most specific part first. */
  type Dn = seq<Rdn>

  datatype Entry = Entry(objectClasses: seq<string>, attributes: map<string, string>)

  /** The superior of every entry is there, unless the entry is at the top of a naming context. */
  ghost predicate Closed(entries: map<Dn, Entry>, contexts: set<Dn>) {
    forall dn :: dn in entries ==> dn != [] && (dn in contexts || dn[1..] in entries)
  }

  /** An entry that is there has all its superiors up to the top of its naming context. */
  lemma {:induction false} ClosedUpward(entries: map<Dn, Entry>, contexts: set<Dn>, dn: Dn, k: nat)
    requires Closed(entries, contexts) && dn in entries && k < |dn|
    ensures dn[k..] in entries || exists j :: 0 <= j < k && dn[j..] in contexts
    decreases k
  {
    if k == 0 {
      assert dn[0..] == dn;
    } else {
      ClosedUpward(entries, contexts, dn, k - 1);
      assert dn[k - 1..][1..] == dn[k..];
    }
  }

  /** The suffixes of a name from the name itself to its first part that is not an ou. */
  function Subsuffixes(dn: Dn): (r: seq<Dn>)
    ensures |r| <= |dn| && forall k :: 0 <= k < |r| ==> r[k] == dn[k..]
    ensures forall k :: 0 <= k < |r| - 1 ==> dn[k].attribute == "ou"
    ensures |r| < |dn| ==> |r| > 0 && dn[|r| - 1].attribute != "ou"
  {
    if dn == [] then []
    else if dn[0].attribute == "ou" then [dn] + Subsuffixes(dn[1..])
    else [dn]
  }

  function OuEntry(dn: Dn): Entry
    requires dn != []
  {
    Entry(["organizationalunit"], map["ou" := dn[0].value])
  }

  /** The entry above the organizational units; for a domain component it carries the class of that too. */
  function RootEntry(dn: Dn): Entry
    requires dn != []
  {
    if dn[0].attribute == "dc" then
      Entry(["organization", "dcObject"], map["dc" := dn[0].value]["o" := dn[0].value])
    else Entry(["organization"], map[dn[0].attribute := dn[0].value])
  }

  /**
   The naming attribute of the entry has the value in its name, as section 4.7 of RFC 4511 wants it, and the entry is
   an organizational unit exactly if it is named so, and an organization otherwise.
   */
  ghost predicate Named(dn: Dn, entry: Entry) {
    && dn != [] && dn[0].attribute in entry.attributes && entry.attributes[dn[0].attribute] == dn[0].value
    && ("organizationalunit" in entry.objectClasses <==> dn[0].attribute == "ou")
    && ("organization" in entry.objectClasses <==> dn[0].attribute != "ou")
  }

  /** What is new is named right. */
  ghost predicate NamedSince(p: map<Dn, Entry>, q: map<Dn, Entry>) {
    forall dn :: dn in q && dn !in p ==> Named(dn, q[dn])
  }

  lemma UnitNamed(dn: Dn)
    requires dn != [] && dn[0].attribute == "ou"
    ensures Named(dn, OuEntry(dn))
  {
  }

  lemma RootNamed(dn: Dn)
    requires dn != [] && dn[0].attribute != "ou"
    ensures Named(dn, RootEntry(dn)) && Named(dn, Entry(["organization"], map[dn[0].attribute := dn[0].value]))
  {
  }

  lemma EntryNamed(dn: Dn)
    requires dn != []
    ensures Named(dn, if dn[0].attribute == "ou" then OuEntry(dn) else RootEntry(dn))
  {
  }

  lemma NamedOnce(p: map<Dn, Entry>, q: map<Dn, Entry>, dn: Dn, entry: Entry)
    requires NamedSince(p, q) && Named(dn, entry)
    ensures NamedSince(p, q[dn := entry])
  {
  }

  lemma NoneNamed(p: map<Dn, Entry>)
    ensures NamedSince(p, p)
  {
  }

  lemma NamedTwice(p: map<Dn, Entry>, q: map<Dn, Entry>, r: map<Dn, Entry>)
    requires NamedSince(p, q) && NamedSince(q, r) && forall dn :: dn in q ==> dn in r && r[dn] == q[dn]
    ensures NamedSince(p, r)
  {
  }

  /** The add rule: the superior is there, or the name is at the top of a naming context. */
  predicate Addable(entries: map<Dn, Entry>, contexts: set<Dn>, dn: Dn) {
    dn != [] && (dn in contexts || dn[1..] in entries)
  }

  /** A directory that accepts what it may can have the suffix: from itself, or from the top of its chain. */
  ghost predicate Creatable(entries: map<Dn, Entry>, contexts: set<Dn>, suffix: Dn)
    requires suffix != []
  {
    FirstSubsuffix(suffix);
    var top := Subsuffixes(suffix)[|Subsuffixes(suffix)| - 1];
    || suffix in entries || Addable(entries, contexts, suffix)
    || top in entries || Addable(entries, contexts, top)
  }

  /** Of the chain either everything below its top can be added in turn, or not even the top. */
  lemma NextAddable(entries: map<Dn, Entry>, contexts: set<Dn>, suffix: Dn, k: nat)
    requires k < |Subsuffixes(suffix)|
    ensures k + 1 < |Subsuffixes(suffix)| && Subsuffixes(suffix)[k + 1] in entries ==>
      Addable(entries, contexts, Subsuffixes(suffix)[k])
  {
    assert suffix[k..][1..] == suffix[k + 1..];
  }

  lemma CreatableItself(entries: map<Dn, Entry>, contexts: set<Dn>, suffix: Dn)
    requires suffix != []
    ensures suffix in entries || Addable(entries, contexts, suffix) ==> Creatable(entries, contexts, suffix)
    ensures suffix[0].attribute != "ou" && Creatable(entries, contexts, suffix) ==>
      suffix in entries || Addable(entries, contexts, suffix)
  {
    assert suffix[0].attribute != "ou" ==> Subsuffixes(suffix) == [suffix];
  }

  lemma CreatableFromTop(entries: map<Dn, Entry>, contexts: set<Dn>, suffix: Dn)
    requires suffix != [] && suffix !in entries && !Addable(entries, contexts, suffix)
    ensures |Subsuffixes(suffix)| > 0
    ensures var top := Subsuffixes(suffix)[|Subsuffixes(suffix)| - 1];
      Creatable(entries, contexts, suffix) <==> top in entries || Addable(entries, contexts, top)
  {
    FirstSubsuffix(suffix);
  }

  lemma CreatableLater(p: map<Dn, Entry>, q: map<Dn, Entry>, contexts: set<Dn>, suffix: Dn)
    requires suffix != [] && forall dn :: dn in p ==> dn in q
    ensures Creatable(p, contexts, suffix) ==> Creatable(q, contexts, suffix)
  {
  }

  /** The entries, and the names added so far in order. */
  datatype Content = Content(entries: map<Dn, Entry>, added: seq<Dn>)

  /** From p to q entries were only added, all among these names, and each after its superior. */
  ghost predicate Grew(p: Content, q: Content, contexts: set<Dn>, names: seq<Dn>) {
    && (forall dn :: dn in p.entries ==> dn in q.entries && q.entries[dn] == p.entries[dn])
    && p.added <= q.added
    && (forall dn :: dn in q.entries <==> dn in p.entries || dn in q.added[|p.added|..])
    && (forall i :: |p.added| <= i < |q.added| ==> AddedInTurn(p, q.added[..i], q.added[i], contexts, names))
  }

  /** dn is one of the names, and its superior was there or added before it. */
  ghost predicate AddedInTurn(p: Content, before: seq<Dn>, dn: Dn, contexts: set<Dn>, names: seq<Dn>) {
    && dn in names && dn != []
    && (dn in contexts || dn[1..] in p.entries || dn[1..] in before)
  }

  lemma NothingGrew(p: Content, contexts: set<Dn>, names: seq<Dn>)
    ensures Grew(p, p, contexts, names)
  {
  }

  lemma GrewByOne(p: Content, q: Content, dn: Dn, entry: Entry, contexts: set<Dn>, names: seq<Dn>)
    requires Grew(p, q, contexts, names) && dn in names && dn !in q.entries && Addable(q.entries, contexts, dn)
    ensures Grew(p, Content(q.entries[dn := entry], q.added + [dn]), contexts, names)
  {
    var r := Content(q.entries[dn := entry], q.added + [dn]);
    assert r.added[|p.added|..] == q.added[|p.added|..] + [dn];
    forall i | |p.added| <= i < |r.added| ensures AddedInTurn(p, r.added[..i], r.added[i], contexts, names) {
      assert r.added[..i] == q.added[..i];
      if i == |q.added| && dn !in contexts && dn[1..] !in p.entries {
        assert dn[1..] in q.added[|p.added|..];
        assert forall x :: x in q.added[|p.added|..] ==> x in q.added;
      } else if i < |q.added| {
        assert AddedInTurn(p, q.added[..i], q.added[i], contexts, names);
      }
    }
  }

  lemma GrewTwice(p: Content, q: Content, r: Content, contexts: set<Dn>, names: seq<Dn>, more: seq<Dn>)
    requires Grew(p, q, contexts, names) && Grew(q, r, contexts, more)
    ensures Grew(p, r, contexts, names + more)
  {
    var n, m := |p.added|, |q.added|;
    assert r.added[n..] == q.added[n..] + r.added[m..];
    forall i | n <= i < |r.added| ensures AddedInTurn(p, r.added[..i], r.added[i], contexts, names + more) {
      if i < m {
        assert r.added[..i] == q.added[..i] && r.added[i] == q.added[i];
        assert AddedInTurn(p, q.added[..i], q.added[i], contexts, names);
      } else {
        assert AddedInTurn(q, r.added[..i], r.added[i], contexts, more);
        InOlder(p, q, r.added[i], r.added[..i]);
      }
    }
  }

  /** A superior that was there already, or was added in between. */
  lemma InOlder(p: Content, q: Content, dn: Dn, before: seq<Dn>)
    requires p.added <= q.added <= before && dn != []
    requires forall x :: x in q.entries <==> x in p.entries || x in q.added[|p.added|..]
    ensures dn[1..] in q.entries ==> dn[1..] in p.entries || dn[1..] in before
  {
    assert forall x :: x in q.added[|p.added|..] ==> x in q.added;
    assert forall x :: x in q.added ==> x in before;
  }

  lemma GrewKeeps(p: Content, q: Content, contexts: set<Dn>, names: seq<Dn>)
    requires Grew(p, q, contexts, names)
    ensures forall dn :: dn in p.entries ==> dn in q.entries && q.entries[dn] == p.entries[dn]
    ensures forall dn :: dn in q.entries && dn !in p.entries ==> dn in names
  {
    forall dn | dn in q.added[|p.added|..] ensures dn in names {
      var i :| |p.added| <= i < |q.added| && q.added[i] == dn;
      assert AddedInTurn(p, q.added[..i], q.added[i], contexts, names);
    }
  }

  class Directory {
    var entries: map<Dn, Entry>
    const contexts: set<Dn>
    /** The server shows what is there, and accepts every add that the rule allows. */
    const reliable: bool
    /** The names added, in order. */
    var added: seq<Dn>
    var failed: map<Dn, int>

    ghost predicate Valid()
      reads this
    {
      Closed(entries, contexts)
    }

    ghost function Now(): Content
      reads this
    {
      Content(entries, added)
    }

    constructor (entries: map<Dn, Entry>, contexts: set<Dn>, reliable: bool)
      requires Closed(entries, contexts)
      ensures Valid() && Now() == Content(entries, []) && this.contexts == contexts && failed == map[]
      ensures this.reliable == reliable
    {
      this.entries, this.contexts, this.reliable, added, failed := entries, contexts, reliable, [], map[];
    }

    method Read(dn: Dn) returns (found: bool)
      ensures found ==> dn in entries
      ensures reliable && dn in entries ==> found
    {
      var shown: bool := *;
      found := (shown || reliable) && dn in entries;
    }

    /** Zero, or an error number; 32 is noSuchObject. */
    method Add(dn: Dn, entry: Entry) returns (errno: int)
      requires Valid()
      modifies this`entries, this`added
      ensures Valid()
      ensures errno == 0 ==> dn !in old(entries) && Addable(old(entries), contexts, dn)
      ensures errno == 0 ==> Now() == Content(old(entries)[dn := entry], old(added) + [dn])
      ensures errno != 0 ==> Now() == old(Now())
      ensures reliable && dn !in old(entries) ==>
        errno == if Addable(old(entries), contexts, dn) then 0 else 32
    {
      var accepted: bool := *;
      if (accepted || reliable) && dn !in entries && Addable(entries, contexts, dn) {
        entries, added := entries[dn := entry], added + [dn];
        errno := 0;
      } else {
        var any: int := *;
        errno := if any == 0 || (reliable && dn !in entries) then 32 else any;
      }
    }

    /** One suffix: an add, and when its superior is missing the adds of the whole chain, topmost first. */
    method AddSuffix(suffix: Dn)
      requires Valid() && suffix != []
      modifies this
      ensures Valid() && Grew(old(Now()), Now(), contexts, Subsuffixes(suffix))
      ensures failed.Keys - {suffix} == old(failed).Keys - {suffix} && old(failed).Keys <= failed.Keys
      ensures suffix !in failed ==> suffix in entries
      ensures NamedSince(old(entries), entries)
      ensures reliable ==> (suffix in entries <==> Creatable(old(entries), contexts, suffix))
      ensures reliable && suffix in entries ==> failed == old(failed)
      ensures reliable && suffix !in entries ==> suffix in failed
    {
      hide Closed, Grew, Subsuffixes, OuEntry, Creatable, Addable, NamedSince;
      ghost var before := Now();
      NothingGrew(before, contexts, Subsuffixes(suffix));
      NoneNamed(before.entries);
      FirstSubsuffix(suffix);
      CreatableItself(before.entries, contexts, suffix);
      var present := Read(suffix);
      if present {
        return;
      }
      if suffix[0].attribute != "ou" {
        AddRoot(suffix);
      } else {
        AddUnit(suffix);
      }
    }

    /** A suffix that is not an ou is added by itself. */
    method AddRoot(suffix: Dn)
      requires Valid() && suffix != [] && suffix[0].attribute != "ou" && (reliable ==> suffix !in entries)
      modifies this
      ensures Valid() && Grew(old(Now()), Now(), contexts, Subsuffixes(suffix))
      ensures failed.Keys <= old(failed).Keys + {suffix} && old(failed).Keys <= failed.Keys
      ensures suffix !in failed ==> suffix in entries
      ensures NamedSince(old(entries), entries)
      ensures reliable ==> (suffix in entries <==> Creatable(old(entries), contexts, suffix))
      ensures reliable && suffix in entries ==> failed == old(failed)
      ensures reliable && suffix !in entries ==> suffix in failed
    {
      hide Closed, Grew, Subsuffixes, Creatable, Addable, NamedSince, Named, RootEntry;
      ghost var before := Now();
      NothingGrew(before, contexts, Subsuffixes(suffix));
      NoneNamed(before.entries);
      FirstSubsuffix(suffix);
      CreatableItself(before.entries, contexts, suffix);
      RootNamed(suffix);
      var entry := Entry(["organization"], map[suffix[0].attribute := suffix[0].value]);
      var errno := Add(suffix, entry);
      if errno != 0 {
        failed := failed[suffix := errno];
      } else {
        GrewByOne(before, before, suffix, entry, contexts, Subsuffixes(suffix));
        NamedOnce(before.entries, before.entries, suffix, entry);
      }
    }

    /** An ou is added by itself, or with the chain above it when its superior is missing. */
    method AddUnit(suffix: Dn)
      requires Valid() && suffix != [] && suffix[0].attribute == "ou" && (reliable ==> suffix !in entries)
      modifies this
      ensures Valid() && Grew(old(Now()), Now(), contexts, Subsuffixes(suffix))
      ensures failed.Keys <= old(failed).Keys + {suffix} && old(failed).Keys <= failed.Keys
      ensures suffix !in failed ==> suffix in entries
      ensures NamedSince(old(entries), entries)
      ensures reliable ==> (suffix in entries <==> Creatable(old(entries), contexts, suffix))
      ensures reliable && suffix in entries ==> failed == old(failed)
      ensures reliable && suffix !in entries ==> suffix in failed
    {
      hide Closed, Grew, Subsuffixes, OuEntry, Creatable, Addable, NamedSince, Named;
      ghost var before := Now();
      NothingGrew(before, contexts, Subsuffixes(suffix));
      NoneNamed(before.entries);
      FirstSubsuffix(suffix);
      CreatableItself(before.entries, contexts, suffix);
      UnitNamed(suffix);
      var errno := Add(suffix, OuEntry(suffix));
      if errno == 32 {
        var ok := AddChain(suffix);
        assert ok ==> Subsuffixes(suffix)[0] in entries;
      } else if errno != 0 {
        failed := failed[suffix := errno];
      } else {
        GrewByOne(before, before, suffix, OuEntry(suffix), contexts, Subsuffixes(suffix));
        NamedOnce(before.entries, before.entries, suffix, OuEntry(suffix));
      }
    }

    /** The chain from its first part that is not an ou down to the suffix; it stops at the first failure. */
    method AddChain(suffix: Dn) returns (ok: bool)
      requires Valid() && suffix != []
      modifies this
      ensures Valid() && Grew(old(Now()), Now(), contexts, Subsuffixes(suffix))
      ensures ok ==> failed == old(failed) && forall dn :: dn in Subsuffixes(suffix) ==> dn in entries
      ensures !ok ==> failed.Keys == old(failed).Keys + {suffix}
      ensures NamedSince(old(entries), entries)
      ensures reliable && suffix !in old(entries) && !Addable(old(entries), contexts, suffix) ==>
        (ok <==> Creatable(old(entries), contexts, suffix)) && (!ok ==> entries == old(entries))
    {
      hide Closed, Grew, Subsuffixes, OuEntry, RootEntry, Creatable, Addable, NamedSince, Named;
      ghost var before := Now();
      NothingGrew(before, contexts, Subsuffixes(suffix));
      NoneNamed(before.entries);
      FirstSubsuffix(suffix);
      var subsuffs := CollectSubsuffixes(suffix);
      var k := |subsuffs|;
      ghost var inTurn := reliable && suffix !in entries && !Addable(entries, contexts, suffix);
      if inTurn {
        CreatableFromTop(entries, contexts, suffix);
      }
      while k > 0
        invariant 0 <= k <= |subsuffs| && Valid() && failed == old(failed)
        invariant Grew(before, Now(), contexts, subsuffs)
        invariant forall i :: k <= i < |subsuffs| ==> subsuffs[i] in entries
        invariant NamedSince(before.entries, entries)
        invariant k == |subsuffs| ==> entries == before.entries
        invariant inTurn && k < |subsuffs| ==> Creatable(before.entries, contexts, suffix)
      {
        k := k - 1;
        var dn := subsuffs[k];
        assert dn == suffix[k..] && dn in subsuffs;
        var present := Read(dn);
        if !present {
          ghost var now := Now();
          NextAddable(entries, contexts, suffix, k);
          var entry := if dn[0].attribute == "ou" then OuEntry(dn) else RootEntry(dn);
          EntryNamed(dn);
          var errno := Add(dn, entry);
          if errno != 0 {
            failed := failed[suffix := errno];
            return false;
          }
          GrewByOne(before, now, dn, entry, contexts, subsuffs);
          NamedOnce(before.entries, now.entries, dn, entry);
        }
      }
      ok := true;
    }

    method CollectSubsuffixes(dn: Dn) returns (r: seq<Dn>)
      ensures r == Subsuffixes(dn)
    {
      r := [];
      var k := 0;
      assert dn[0..] == dn;
      while k < |dn|
        invariant 0 <= k <= |dn| && r + Subsuffixes(dn[k..]) == Subsuffixes(dn)
      {
        MoreSubsuffixes(dn[k..]);
        assert dn[k..][1..] == dn[k + 1..];
        r := r + [dn[k..]];
        if dn[k].attribute != "ou" {
          return;
        }
        k := k + 1;
      }
    }

    /** All the suffixes asked for, in order: whatever is added comes after its superior. */
    method AddSuffixes(suffixes: seq<Dn>)
      requires Valid() && forall i :: 0 <= i < |suffixes| ==> suffixes[i] != []
      modifies this
      ensures Valid()
      ensures Grew(old(Now()), Now(), contexts, AllSubsuffixes(suffixes))
      ensures old(added) <= added
      ensures forall dn :: dn in old(entries) ==> dn in entries && entries[dn] == old(entries)[dn]
      ensures forall dn :: dn in entries && dn !in old(entries) ==>
        exists i :: 0 <= i < |suffixes| && dn in Subsuffixes(suffixes[i])
      ensures forall i :: 0 <= i < |suffixes| && suffixes[i] !in failed ==> suffixes[i] in entries
      ensures NamedSince(old(entries), entries)
      ensures reliable ==> forall i :: 0 <= i < |suffixes| && Creatable(old(entries), contexts, suffixes[i]) ==>
        suffixes[i] in entries
    {
      hide Closed, Grew, Subsuffixes, Creatable, NamedSince;
      ghost var before := Now();
      assert suffixes[..0] == [];
      NoneNamed(before.entries);
      NothingGrew(before, contexts, []);
      for i := 0 to |suffixes|
        invariant Valid() && Grew(before, Now(), contexts, AllSubsuffixes(suffixes[..i]))
        invariant forall j :: 0 <= j < i && suffixes[j] !in failed ==> suffixes[j] in entries
        invariant NamedSince(before.entries, entries)
        invariant reliable ==>
          forall j :: 0 <= j < i && Creatable(before.entries, contexts, suffixes[j]) ==> suffixes[j] in entries
      {
        ghost var now := Now();
        AddSuffix(suffixes[i]);
        assert suffixes[..i + 1][..i] == suffixes[..i];
        GrewTwice(before, now, Now(), contexts, AllSubsuffixes(suffixes[..i]), Subsuffixes(suffixes[i]));
        GrewKeeps(now, Now(), contexts, Subsuffixes(suffixes[i]));
        GrewKeeps(before, now, contexts, AllSubsuffixes(suffixes[..i]));
        CreatableLater(before.entries, now.entries, contexts, suffixes[i]);
        NamedTwice(before.entries, now.entries, entries);
      }
      assert suffixes[..|suffixes|] == suffixes;
      GrewKeeps(before, Now(), contexts, AllSubsuffixes(suffixes));
      GrewAdded(before, Now(), contexts, AllSubsuffixes(suffixes));
      forall dn | dn in AllSubsuffixes(suffixes)
        ensures exists i :: 0 <= i < |suffixes| && dn in Subsuffixes(suffixes[i])
      {
        FromOne(suffixes, dn);
      }
    }
  }

  /** The names that creating the suffixes may add. */
  function AllSubsuffixes(suffixes: seq<Dn>): seq<Dn> {
    if suffixes == [] then []
    else AllSubsuffixes(suffixes[..|suffixes| - 1]) + Subsuffixes(suffixes[|suffixes| - 1])
  }

  lemma {:induction false} FromOne(suffixes: seq<Dn>, dn: Dn)
    requires dn in AllSubsuffixes(suffixes)
    ensures exists i :: 0 <= i < |suffixes| && dn in Subsuffixes(suffixes[i])
  {
    var n := |suffixes| - 1;
    if dn !in Subsuffixes(suffixes[n]) {
      FromOne(suffixes[..n], dn);
      var i :| 0 <= i < n && dn in Subsuffixes(suffixes[..n][i]);
      assert suffixes[..n][i] == suffixes[i];
    }
  }

  lemma GrewAdded(p: Content, q: Content, contexts: set<Dn>, names: seq<Dn>)
    requires Grew(p, q, contexts, names)
    ensures p.added <= q.added
  {
  }

  lemma FirstSubsuffix(dn: Dn)
    requires dn != []
    ensures |Subsuffixes(dn)| > 0 && Subsuffixes(dn)[0] == dn
  {
  }

  lemma MoreSubsuffixes(dn: Dn)
    requires dn != []
    ensures Subsuffixes(dn) == [dn] + (if dn[0].attribute == "ou" then Subsuffixes(dn[1..]) else [])
  {
  }
}
