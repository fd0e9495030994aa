/** Header names, header values and the ordered, case-insensitive collection of src/header.rs. */
module Header {
  import opened Common
  import opened Text

  /** A name keeps its wire casing; two names are equal when their canonical forms are. */
  datatype HeaderName = HeaderName(original: string) {
    function Canonical(): string { Lower(original) }
  }

  datatype Entry = Entry(name: HeaderName, value: string)

  type Pair = (string, string)

  /** The `token` characters of section 5.6.2 of RFC 9110. */
  predicate IsTokenChar(c: char) {
    || 'a' <= c <= 'z' || 'A' <= c <= 'Z' || '0' <= c <= '9'
    || c in "!#$%&'*+-.^_`|~"
  }

  /** Tokens are the visible ASCII characters without the delimiters. */
  lemma TokenCharsAreVisibleNonDelimiters(c: char)
    ensures IsTokenChar(c) <==> 0x21 <= c as int <= 0x7E && c !in "\"(),/:;<=>?@[\\]{}"
  {
    assert '0' as int == 0x30 && '9' as int == 0x39 && 'A' as int == 0x41 && 'Z' as int == 0x5A;
    assert 'a' as int == 0x61 && 'z' as int == 0x7A;
  }

  predicate IsToken(s: string) { s != "" && forall i :: 0 <= i < |s| ==> IsTokenChar(s[i]) }

  predicate IsDisallowedValueChar(c: char) { (c as int <= 0x1F && c != '\t') || c as int == 0x7F }

  predicate IsHeaderValue(s: string) { forall i :: 0 <= i < |s| ==> !IsDisallowedValueChar(s[i]) }

  /**
    * A header value is made of tabs and of characters from the space on, except the delete character. So it is on one
    * line; a text on one line that is not blank is still no header value if it has another control character.
    */
  lemma HeaderValueMeans(s: string)
    ensures IsHeaderValue(s) <==> forall i :: 0 <= i < |s| ==> s[i] == '\t' || (' ' <= s[i] && s[i] as int != 127)
    ensures IsHeaderValue(s) ==> forall i :: 0 <= i < |s| ==> s[i] as int != 10 && s[i] as int != 13
    ensures IsContextValue(s) <==>
              && (exists i :: 0 <= i < |s| && !IsWhitespace(s[i]))
              && (forall i :: 0 <= i < |s| ==> s[i] as int != 10 && s[i] as int != 13)
  {
    assert '\n' in s ==> exists i :: 0 <= i < |s| && s[i] as int == 10;
    assert '\r' in s ==> exists i :: 0 <= i < |s| && s[i] as int == 13;
  }

  /** `HeaderName::new`. */
  function NewHeaderName(s: string): Result<HeaderName, Error> {
    if IsToken(s) then Ok(HeaderName(s)) else Err(InvalidHeader)
  }

  /** `HeaderValue::new`. */
  function NewHeaderValue(s: string): Result<string, Error> {
    if IsHeaderValue(s) then Ok(s) else Err(InvalidHeader)
  }

  predicate HasName(entries: seq<Entry>, canonical: string) {
    exists i :: 0 <= i < |entries| && entries[i].name.Canonical() == canonical
  }

  predicate DistinctNames(entries: seq<Entry>) {
    forall i, j :: 0 <= i < j < |entries| ==> entries[i].name.Canonical() != entries[j].name.Canonical()
  }

  predicate ValidEntry(e: Entry) { IsToken(e.name.original) && IsHeaderValue(e.value) }

  predicate AllValid(entries: seq<Entry>) { forall i :: 0 <= i < |entries| ==> ValidEntry(entries[i]) }

  /** Token names, one-line values, and no two names equal up to case. */
  predicate WellFormed(entries: seq<Entry>) {
    DistinctNames(entries) && AllValid(entries)
  }

  /** Well-formedness without canonical forms: no two names differ only in case. */
  lemma WellFormedMeans(entries: seq<Entry>)
    ensures WellFormed(entries) <==>
              && (forall i, j :: 0 <= i < j < |entries| ==>
                    !DifferOnlyInCase(entries[i].name.original, entries[j].name.original))
              && (forall i :: 0 <= i < |entries| ==> IsToken(entries[i].name.original) && IsHeaderValue(entries[i].value))
  {
    hide Lower, DifferOnlyInCase, IsToken, IsHeaderValue;
    forall i, j | 0 <= i < j < |entries|
      ensures entries[i].name.Canonical() == entries[j].name.Canonical()
              <==> DifferOnlyInCase(entries[i].name.original, entries[j].name.original)
    {
      SameIgnoringCaseMeans(entries[i].name.original, entries[j].name.original);
    }
  }

  function ToEntry(p: Pair): Entry { Entry(HeaderName(p.0), p.1) }

  function ToEntries(pairs: seq<Pair>): (entries: seq<Entry>)
    ensures |entries| == |pairs| && forall i :: 0 <= i < |pairs| ==> entries[i] == ToEntry(pairs[i])
  {
    seq(|pairs|, i requires 0 <= i < |pairs| => ToEntry(pairs[i]))
  }

  /** The failure, if any, of adding one more entry. */
  function InsertFailure(entries: seq<Entry>, e: Entry): Option<Error> {
    if !ValidEntry(e) then Some(InvalidHeader)
    else if HasName(entries, e.name.Canonical()) then Some(HeaderConflict)
    else None
  }

  /** Adding entries one by one, stopping at the first failure. */
  function Collect(entries: seq<Entry>): Result<seq<Entry>, Error> {
    if |entries| == 0 then Ok([])
    else
      var front :- Collect(entries[..|entries| - 1]);
      var last := entries[|entries| - 1];
      var failure := InsertFailure(front, last);
      if failure.Some? then Err(failure.value) else Ok(front + [last])
  }

  /** Collecting succeeds exactly on well-formed input, which it returns unchanged. */
  lemma {:induction false} CollectAcceptsWellFormed(entries: seq<Entry>)
    ensures Collect(entries).Ok? <==> WellFormed(entries)
    ensures Collect(entries).Ok? ==> Collect(entries).value == entries
  {
    if |entries| > 0 {
      var front, last := entries[..|entries| - 1], entries[|entries| - 1];
      CollectAcceptsWellFormed(front);
      assert entries == front + [last];
      assert WellFormed(entries) <==> WellFormed(front) && InsertFailure(front, last).None? by {
        assert forall i :: 0 <= i < |front| ==> entries[i] == front[i];
      }
    }
  }

  /**
    * The error reported is that of the first entry which cannot join the well-formed entries before it: a malformed
    * name or value, even on a repeated name, and a conflict only for a well-formed entry.
    */
  lemma {:induction false} CollectReportsFirstFailure(entries: seq<Entry>, k: nat)
    requires k < |entries| && WellFormed(entries[..k]) && InsertFailure(entries[..k], entries[k]).Some?
    ensures Collect(entries) == Err(InsertFailure(entries[..k], entries[k]).value)
    ensures Collect(entries) ==
            Err(if IsToken(entries[k].name.original) && IsHeaderValue(entries[k].value) then HeaderConflict else InvalidHeader)
    decreases |entries|
  {
    var front := entries[..|entries| - 1];
    if k == |entries| - 1 {
      CollectAcceptsWellFormed(front);
    } else {
      assert front[..k] == entries[..k];
      CollectReportsFirstFailure(front, k);
    }
  }

  /** Among syntactically valid entries the only failure is a repeated name. */
  lemma {:induction false} CollectFailsOnlyOverNames(entries: seq<Entry>)
    ensures AllValid(entries) && Collect(entries).Err? ==> Collect(entries).error == HeaderConflict
  {
    if |entries| > 0 { CollectFailsOnlyOverNames(entries[..|entries| - 1]); }
  }

  /** Why appending one collection to another fails: the first malformed one, and otherwise a shared name. */
  function AppendOutcome(a: seq<Entry>, b: seq<Entry>): Result<(), Error> {
    if Collect(a).Err? then Err(Collect(a).error)
    else if Collect(b).Err? then Err(Collect(b).error)
    else if !WellFormed(a + b) then Err(HeaderConflict)
    else Ok(())
  }

  /** `get`: the value of the first entry whose name matches under any casing. */
  function Lookup(entries: seq<Entry>, name: string): Option<string> {
    if |entries| == 0 then None
    else if SameIgnoringCase(entries[0].name.original, name) then Some(entries[0].value)
    else Lookup(entries[1..], name)
  }

  /** In a well-formed collection the match is unique, whatever the casing of the query. */
  lemma {:induction false} LookupFindsTheUniqueEntry(entries: seq<Entry>, k: nat, name: string)
    requires DistinctNames(entries) && k < |entries| && DifferOnlyInCase(entries[k].name.original, name)
    ensures Lookup(entries, name) == Some(entries[k].value)
  {
    SameIgnoringCaseMeans(entries[k].name.original, name);
    if k > 0 {
      assert entries[0].name.Canonical() != entries[k].name.Canonical();
      LookupFindsTheUniqueEntry(entries[1..], k - 1, name);
    }
  }

  /** A lookup misses exactly when no name differs from the query only in case. */
  lemma {:induction false} LookupMisses(entries: seq<Entry>, name: string)
    ensures Lookup(entries, name).None? <==>
              forall i :: 0 <= i < |entries| ==> !DifferOnlyInCase(entries[i].name.original, name)
  {
    hide SameIgnoringCase, DifferOnlyInCase;
    if |entries| > 0 {
      LookupMisses(entries[1..], name);
      SameIgnoringCaseMeans(entries[0].name.original, name);
      assert forall i :: 0 < i < |entries| ==> entries[i] == entries[1..][i - 1];
    }
  }

  /** The collection that requests carry, changed in place. */
  class HeaderCollection {
    var entries: seq<Entry>

    /** Holds of every collection built by `Insert`, `FromPairs`, `FromTypedPairs` and `AppendChecked`. */
    predicate Valid()
      reads this
    {
      WellFormed(entries)
    }

    constructor ()
      ensures entries == [] && Valid()
    {
      entries := [];
    }

    /** A collection handed over by an adapter, not yet checked. */
    constructor Unchecked(entries: seq<Entry>)
      ensures this.entries == entries
    {
      this.entries := entries;
    }

    /** `self.entries.iter().any(|(candidate, _)| candidate == name)`. */
    method Contains(name: HeaderName) returns (found: bool)
      ensures found <==> HasName(entries, name.Canonical())
    {
      for i := 0 to |entries|
        invariant !HasName(entries[..i], name.Canonical())
      {
        if entries[i].name.Canonical() == name.Canonical() {
          return true;
        }
        assert forall j :: 0 <= j < i ==> entries[..i + 1][j] == entries[..i][j];
      }
      assert entries[..|entries|] == entries;
      found := false;
    }

    method InsertTyped(name: HeaderName, value: string) returns (r: Result<(), Error>)
      modifies this
      ensures r == if HasName(old(entries), name.Canonical()) then Err(HeaderConflict) else Ok(())
      ensures entries == if r.Ok? then old(entries) + [Entry(name, value)] else old(entries)
      ensures old(Valid()) && ValidEntry(Entry(name, value)) ==> Valid()
    {
      var found := Contains(name);
      if found {
        return Err(HeaderConflict);
      }
      entries := entries + [Entry(name, value)];
      r := Ok(());
    }

    method Insert(name: string, value: string) returns (r: Result<(), Error>)
      modifies this
      ensures var failure := InsertFailure(old(entries), ToEntry((name, value)));
              r == if failure.Some? then Err(failure.value) else Ok(())
      ensures entries == if r.Ok? then old(entries) + [ToEntry((name, value))] else old(entries)
      ensures old(Valid()) ==> Valid()
    {
      var typedName :- NewHeaderName(name);
      var typedValue :- NewHeaderValue(value);
      r := InsertTyped(typedName, typedValue);
    }

    static method FromPairs(pairs: seq<Pair>) returns (r: Result<(), Error>, collection: HeaderCollection)
      ensures fresh(collection) && collection.Valid()
      ensures r.Ok? <==> WellFormed(ToEntries(pairs))
      ensures r.Ok? ==> collection.entries == ToEntries(pairs)
      ensures r.Err? ==> Collect(ToEntries(pairs)) == Err(r.error)
    {
      hide Collect, InsertFailure, WellFormed;
      var all := ToEntries(pairs);
      CollectAcceptsWellFormed(all);
      collection := new HeaderCollection();
      for i := 0 to |pairs|
        invariant fresh(collection) && collection.Valid()
        invariant collection.entries == all[..i]
      {
        r := collection.Insert(pairs[i].0, pairs[i].1);
        if r.Err? {
          CollectReportsFirstFailure(all, i);
          return;
        }
        assert all[..i + 1] == all[..i] + [all[i]];
      }
      assert all[..|all|] == all;
      r := Ok(());
    }

    static method FromTypedPairs(pairs: seq<Entry>) returns (r: Result<(), Error>, collection: HeaderCollection)
      ensures fresh(collection)
      ensures r.Ok? <==> WellFormed(pairs)
      ensures r.Ok? ==> collection.entries == pairs && collection.Valid()
      ensures r.Err? && AllValid(pairs) ==> r.error == HeaderConflict
    {
      collection := new HeaderCollection();
      for i := 0 to |pairs|
        invariant fresh(collection)
        invariant collection.entries == pairs[..i] && DistinctNames(pairs[..i])
      {
        r := collection.InsertTyped(pairs[i].name, pairs[i].value);
        if r.Err? {
          assert exists j :: 0 <= j < i && pairs[j].name.Canonical() == pairs[i].name.Canonical() by {
            var j :| 0 <= j < |pairs[..i]| && pairs[..i][j].name.Canonical() == pairs[i].name.Canonical();
            assert pairs[j] == pairs[..i][j];
          }
          return;
        }
        assert pairs[..i + 1] == pairs[..i] + [pairs[i]];
      }
      assert pairs[..|pairs|] == pairs;
      r := collection.Revalidate();
    }

    /** Accepts exactly the well-formed collections. */
    method Revalidate() returns (r: Result<(), Error>)
      ensures r.Ok? <==> Valid()
      ensures r.Err? ==> Collect(entries) == Err(r.error)
    {
      CollectAcceptsWellFormed(entries);
      var validated := new HeaderCollection();
      for i := 0 to |entries|
        invariant fresh(validated) && validated.Valid()
        invariant validated.entries == entries[..i]
        invariant entries == old(entries)
      {
        assert ToEntry((entries[i].name.original, entries[i].value)) == entries[i];
        r := validated.Insert(entries[i].name.original, entries[i].value);
        if r.Err? {
          CollectReportsFirstFailure(entries, i);
          return;
        }
        assert entries[..i + 1] == entries[..i] + [entries[i]];
      }
      assert entries[..|entries|] == entries;
      r := Ok(());
    }

    /** All or nothing: appends the other collection in order, or changes nothing. */
    method AppendChecked(other: HeaderCollection) returns (r: Result<(), Error>)
      requires other != this
      modifies this
      ensures r.Ok? <==> WellFormed(old(entries) + other.entries)
      ensures entries == if r.Ok? then old(entries) + other.entries else old(entries)
      ensures r == AppendOutcome(old(entries), other.entries)
      ensures r.Err? && AllValid(old(entries)) && AllValid(other.entries) ==> r.error == HeaderConflict
      ensures other.entries == old(other.entries)
    {
      hide WellFormed, HasName, Collect, AllValid;
      AppendWellFormed(entries, other.entries);
      CollectAcceptsWellFormed(entries);
      CollectAcceptsWellFormed(other.entries);
      CollectFailsOnlyOverNames(entries);
      CollectFailsOnlyOverNames(other.entries);
      var _ :- Revalidate();
      var _ :- other.Revalidate();
      for i := 0 to |other.entries|
        invariant entries == old(entries) && other.entries == old(other.entries)
        invariant forall j :: 0 <= j < i ==> !HasName(entries, other.entries[j].name.Canonical())
      {
        var found := Contains(other.entries[i].name);
        if found {
          return Err(HeaderConflict);
        }
      }
      entries := entries + other.entries;
      r := Ok(());
    }

    method Get(name: string) returns (value: Option<string>)
      ensures value == Lookup(entries, name)
    {
      for i := 0 to |entries|
        invariant Lookup(entries, name) == Lookup(entries[i..], name)
      {
        if SameIgnoringCase(entries[i].name.original, name) {
          return Some(entries[i].value);
        }
        assert entries[i..][1..] == entries[i + 1..];
      }
      value := None;
    }
  }

  /** A concatenation is well-formed when both parts are and they share no name. */
  lemma AppendWellFormed(a: seq<Entry>, b: seq<Entry>)
    ensures WellFormed(a + b) <==>
              WellFormed(a) && WellFormed(b) && forall j :: 0 <= j < |b| ==> !HasName(a, b[j].name.Canonical())
  {
    var c := a + b;
    assert forall i :: 0 <= i < |a| ==> c[i] == a[i];
    assert forall j :: 0 <= j < |b| ==> c[|a| + j] == b[j];
    if DistinctNames(c) {
      forall j | 0 <= j < |b| ensures !HasName(a, b[j].name.Canonical()) {
        assert c[|a| + j] == b[j];
      }
    }
    if WellFormed(a) && WellFormed(b) && forall j :: 0 <= j < |b| ==> !HasName(a, b[j].name.Canonical()) {
      forall i, j | 0 <= i < j < |c| ensures c[i].name.Canonical() != c[j].name.Canonical() {
        if i < |a| && j >= |a| {
          assert !HasName(a, b[j - |a|].name.Canonical());
        }
      }
    }
  }
}
