/**
 * The discernment engine (src/galaxy_parser/discerner.py): the label
 * normaliser, the index a discerner builds over one galaxy, the exact and
 * partial matcher, the hint selection among several candidates, and the
 * resulting `Discernment` with its tag.
 *
 * The two `difflib` helpers are parameters: `get_close_matches` is any
 * function returning some of the labels it is offered, and
 * `SequenceMatcher(...).ratio()` is any real-valued score.
 */
module Discerners {
  import opened Wrappers
  import opened Exceptions
  import opened Strings
  import opened Dicts
  import opened Tags
  import opened Galaxy

  /** `difflib.get_close_matches(word, possibilities)`. */
  type CloseMatcher = (string, set<string>) -> seq<string>

  /** `difflib.SequenceMatcher(None, a, b).ratio()`. */
  type Ratio = (string, string) -> real

  /** What `get_close_matches` promises: it only returns labels it was offered. */
  ghost predicate ValidCloseMatcher(cm: CloseMatcher) {
    forall word, labels, x :: x in cm(word, labels) ==> x in labels
  }

  // -------------------------------------------------------------- normaliser

  /** `AV_CLASSES`: generic class words that say nothing about the family. */
  const AvClasses: set<string> := {
    "encrypted", "malware", "phishing", "ransomware", "threat",
    "trojan", "backdoor", "loader", "worm", "stealer"
  }

  /** Every class word is a single lowercase token. */
  lemma ClassWordShape(w: string)
    requires w in AvClasses
    ensures w != [] && forall i :: 0 <= i < |w| ==> IsLowerAlnum(w[i])
  {}

  /** The tokens that are not class words, in order. */
  function DropClasses(tokens: seq<string>): (r: seq<string>)
    ensures forall t :: t in r <==> t in tokens && t !in AvClasses
  {
    if tokens == [] then []
    else (if tokens[0] in AvClasses then [] else [tokens[0]]) + DropClasses(tokens[1..])
  }

  lemma {:induction false} DropClassesAppend(a: seq<string>, b: seq<string>)
    ensures DropClasses(a + b) == DropClasses(a) + DropClasses(b)
  {
    if a == [] {
      assert a + b == b;
    } else {
      assert (a + b)[1..] == a[1..] + b;
      DropClassesAppend(a[1..], b);
    }
  }

  /** The whitespace tokens of a label once stripped and lowered. */
  function Tokens(text: string): seq<string> {
    SplitWs(Lower(Strip(text)))
  }

  /** The tokens the normaliser keeps: those that are not class words. */
  function Kept(text: string): (r: seq<string>)
    ensures forall t :: t in r ==> NoUpper(t)
  {
    LowerNoUpper(Strip(text));
    SplitFromNoUpper(Lower(Strip(text)), []);
    DropClasses(Tokens(text))
  }

  /**
   * `AbstractDiscerner.normalize`: strip, lower, drop the class-word tokens,
   * join with spaces, keep only ASCII letters and digits. The result is made
   * of lowercase letters and digits only.
   */
  function Normalize(text: string): (r: string)
    ensures forall i :: 0 <= i < |r| ==> IsLowerAlnum(r[i])
  {
    JoinNoUpper(" ", Kept(text));
    AlnumOnlyLowerAlnum(Join(" ", Kept(text)));
    AlnumOnly(Join(" ", Kept(text)))
  }

  /** Stripping does not change the tokens, so they are those of the lowered label. */
  lemma TokensOfLower(text: string)
    ensures Tokens(text) == SplitWs(Lower(text))
  {
    StripLower(text);
    SplitWsStrip(Lower(text));
  }

  /** Case does not matter to the normaliser. */
  lemma NormalizeIgnoresCase(text: string)
    ensures Normalize(Lower(text)) == Normalize(text)
  {
    TokensOfLower(text);
    TokensOfLower(Lower(text));
    LowerIdempotent(text);
    assert Kept(Lower(text)) == Kept(text);
  }

  /** Two labels that agree up to case normalise alike. */
  lemma NormalizeCaseInsensitive(x: string, y: string)
    requires Lower(x) == Lower(y)
    ensures Normalize(x) == Normalize(y)
  {
    NormalizeIgnoresCase(x);
    NormalizeIgnoresCase(y);
  }

  /** A class word is a token of its own, kept by nobody. */
  lemma KeptClassWord(w: string)
    requires w in AvClasses
    ensures SplitWs(w) == [w] && Lower(w) == w && Kept(w) == []
  {
    ClassWordShape(w);
    TokensOfLower(w);
    LowerOfNoUpper(w);
    SplitWsWord(w);
    assert DropClasses([w]) == [];
  }

  /** A class word on its own normalises to the empty label. */
  lemma NormalizeClassWord(w: string)
    requires w in AvClasses
    ensures Normalize(w) == ""
  {
    KeptClassWord(w);
  }

  /** Lowering a label with spaced parts lowers each part. */
  lemma LowerSpaced(a: string, w: string, b: string)
    requires Lower(w) == w
    ensures Lower(a + " " + w + " " + b) == Lower(a) + [' '] + (w + [' '] + Lower(b))
    ensures Lower(a + " " + b) == Lower(a) + [' '] + Lower(b)
  {
    assert a + " " + w + " " + b == a + (" " + (w + (" " + b)));
    LowerAppend(a, " " + (w + (" " + b)));
    LowerAppend(" ", w + (" " + b));
    LowerAppend(w, " " + b);
    LowerAppend(" ", b);
    assert a + " " + b == a + (" " + b);
    LowerAppend(a, " " + b);
  }

  /** The tokens of a label with a lowercase word spaced into it. */
  lemma TokensSpaced(a: string, w: string, b: string)
    requires Lower(w) == w
    ensures Tokens(a + " " + w + " " + b) == SplitWs(Lower(a)) + (SplitWs(w) + SplitWs(Lower(b)))
    ensures Tokens(a + " " + b) == SplitWs(Lower(a)) + SplitWs(Lower(b))
  {
    LowerSpaced(a, w, b);
    var la, lb := Lower(a), Lower(b);
    TokensOfLower(a + " " + w + " " + b);
    TokensOfLower(a + " " + b);
    SplitWsAppend(la, ' ', w + [' '] + lb);
    SplitWsAppend(w, ' ', lb);
    SplitWsAppend(la, ' ', lb);
  }

  /** Removing a class-word token leaves the kept tokens as they were. */
  lemma KeptDropsClassWord(a: string, w: string, b: string)
    requires w in AvClasses
    ensures Kept(a + " " + w + " " + b) == Kept(a + " " + b)
  {
    KeptClassWord(w);
    TokensSpaced(a, w, b);
    var ta, tb := SplitWs(Lower(a)), SplitWs(Lower(b));
    DropClassesAppend(ta, [w] + tb);
    DropClassesAppend([w], tb);
    DropClassesAppend(ta, tb);
    assert DropClasses([w]) == [];
    assert DropClasses([w] + tb) == DropClasses(tb);
  }

  /** A whitespace token that is a class word contributes nothing to the normal form. */
  lemma NormalizeDropsClassWord(a: string, w: string, b: string)
    requires w in AvClasses
    ensures Normalize(a + " " + w + " " + b) == Normalize(a + " " + b)
  {
    KeptDropsClassWord(a, w, b);
  }

  // ---------------------------------------------------- bracketed qualifiers

  predicate IsOpener(c: char) { c == '(' || c == '[' }

  predicate IsCloser(c: char) { c == ')' || c == ']' }

  /** Where a lazy match up to a closing bracket ends: the first `)` or `]`, unless a newline comes first. */
  function FindCloser(s: string): (r: Option<nat>)
    ensures r.Some? ==> (r.value < |s| && IsCloser(s[r.value])
                         && forall k :: 0 <= k < r.value ==> !IsCloser(s[k]) && s[k] != '\n')
    ensures r.None? ==> forall k :: 0 <= k < |s| && IsCloser(s[k]) ==> '\n' in s[..k]
  {
    if s == [] then None
    else if IsCloser(s[0]) then Some(0)
    else if s[0] == '\n' then None
    else
      match FindCloser(s[1..])
      case None => None
      case Some(j) => Some(j + 1)
  }

  /** The regular-expression removal of bracketed parts: each `(` or `[` up to the nearest `)` or `]` goes, left to right. */
  function RemoveBracketed(s: string): string
    decreases |s|
  {
    if s == [] then []
    else if IsOpener(s[0]) && FindCloser(s[1..]).Some? then
      RemoveBracketed(s[1..][FindCloser(s[1..]).value + 1..])
    else [s[0]] + RemoveBracketed(s[1..])
  }

  /** The label without its bracketed qualifiers, as `__init__` adds it to the known labels. */
  function StripQualifiers(s: string): string {
    StripSpaces(RemoveBracketed(s))
  }

  /** A qualifier in brackets is cut out, and the text before it is kept as it is. */
  lemma {:induction false} RemoveBracketedQualifier(a: string, q: string, b: string)
    requires forall i :: 0 <= i < |a| ==> !IsOpener(a[i])
    requires forall i :: 0 <= i < |q| ==> !IsCloser(q[i]) && q[i] != '\n'
    ensures RemoveBracketed(a + "(" + q + ")" + b) == a + RemoveBracketed(b)
    decreases |a|
  {
    var s := a + "(" + q + ")" + b;
    if a == [] {
      assert s[0] == '(' && s[1..] == q + ")" + b;
      var t := s[1..];
      assert IsCloser(t[|q|]);
      assert t[..|q|] == q;
      match FindCloser(t)
      case None =>
        assert false;
      case Some(j) =>
        assert j == |q|;
        assert t[j + 1..] == b;
    } else {
      assert s[0] == a[0] && s[1..] == a[1..] + "(" + q + ")" + b;
      RemoveBracketedQualifier(a[1..], q, b);
    }
  }

  /** "BlackMatter (Windows)" also stands for "BlackMatter". */
  lemma StripQualifiersTrailing(a: string, q: string)
    requires forall i :: 0 <= i < |a| ==> !IsOpener(a[i])
    requires forall i :: 0 <= i < |q| ==> !IsCloser(q[i]) && q[i] != '\n'
    ensures StripQualifiers(a + "(" + q + ")") == StripSpaces(a)
  {
    RemoveBracketedQualifier(a, q, []);
    assert a + "(" + q + ")" + [] == a + "(" + q + ")";
    assert a + RemoveBracketed([]) == a;
  }

  // ------------------------------------------------------------------- index

  /**
   * The index is stated over any label normaliser; a discerner builds it
   * with `Normalize`.
   */
  type Normaliser = string -> string

  /** The first loop of `__init__`: each value's normal form maps to its entry, the last one winning. */
  function CanonicalIndex(values: seq<Cluster>, norm: Normaliser): (d: ODict<string, Cluster>)
    ensures d.Valid()
    decreases |values|
  {
    if values == [] then Empty()
    else
      var e := values[|values| - 1];
      CanonicalIndex(values[..|values| - 1], norm).Put(norm(e.value), e)
  }

  /** `unique_labels`: every value, and every value without its bracketed qualifiers. */
  function UniqueLabels(values: seq<Cluster>): (u: set<string>)
    ensures forall l :: l in u <==> exists v :: v in values && (l == v.value || l == StripQualifiers(v.value))
    decreases |values|
  {
    if values == [] then {}
    else
      var e := values[|values| - 1];
      assert forall v :: v in values <==> v in values[..|values| - 1] || v == e by {
        assert values == values[..|values| - 1] + [e];
      }
      UniqueLabels(values[..|values| - 1]) + {e.value, StripQualifiers(e.value)}
  }

  /** Some synonym in `syns`, not among the known labels, normalises to `k`. */
  ghost predicate NewSynonymKey(syns: seq<string>, unique: set<string>, k: string, norm: Normaliser) {
    exists s :: s in syns && s !in unique && norm(s) == k
  }

  /** The inner synonym loop of `__init__` for one entry. */
  function AddSynonyms(d: ODict<string, Cluster>, syns: seq<string>, e: Cluster, unique: set<string>, norm: Normaliser)
    : (r: ODict<string, Cluster>)
    requires d.Valid()
    ensures r.Valid()
    decreases |syns|
  {
    if syns == [] then d
    else
      var s := syns[|syns| - 1];
      var front := AddSynonyms(d, syns[..|syns| - 1], e, unique, norm);
      if s in unique then front else front.Put(norm(s), e)
  }

  /** The outer synonym loop of `__init__`, over the indexed entries in index order. */
  function SynonymIndex(entries: seq<Cluster>, unique: set<string>, norm: Normaliser): (d: ODict<string, Cluster>)
    ensures d.Valid()
    decreases |entries|
  {
    if entries == [] then Empty()
    else
      var e := entries[|entries| - 1];
      AddSynonyms(SynonymIndex(entries[..|entries| - 1], unique, norm), e.Synonyms(), e, unique, norm)
  }

  /** `entry_by_norm_label` once `__init__` is done: the canonical index merged with the synonym index. */
  function BuildIndex(values: seq<Cluster>, norm: Normaliser): (d: ODict<string, Cluster>)
    ensures d.Valid()
  {
    var canonical := CanonicalIndex(values, norm);
    canonical.Update(SynonymIndex(canonical.Values(), UniqueLabels(values), norm))
  }

  /** The canonical index has a key for each value's normal form, and no other key. */
  lemma {:induction false} CanonicalIndexKeys(values: seq<Cluster>, k: string, norm: Normaliser)
    ensures k in CanonicalIndex(values, norm).m <==> exists v :: v in values && norm(v.value) == k
    decreases |values|
  {
    if values != [] {
      var n := |values| - 1;
      var last := values[n];
      CanonicalIndexKeys(values[..n], k, norm);
      assert values == values[..n] + [last];
      assert forall v :: v in values <==> v in values[..n] || v == last;
    }
  }

  /** Under each key, the canonical index holds the last entry with that normal form. */
  lemma {:induction false} CanonicalIndexLast(values: seq<Cluster>, i: nat, norm: Normaliser)
    requires i < |values|
    requires forall j :: i < j < |values| ==> norm(values[j].value) != norm(values[i].value)
    ensures norm(values[i].value) in CanonicalIndex(values, norm).m
    ensures CanonicalIndex(values, norm).m[norm(values[i].value)] == values[i]
    decreases |values|
  {
    var n := |values| - 1;
    var front := CanonicalIndex(values[..n], norm);
    assert CanonicalIndex(values, norm).m == front.m[norm(values[n].value) := values[n]];
    if i < n {
      assert values[..n][i] == values[i];
      CanonicalIndexLast(values[..n], i, norm);
    }
  }

  /** The canonical index only holds entries of the galaxy, each under its own normal form. */
  lemma {:induction false} CanonicalIndexEntries(values: seq<Cluster>, norm: Normaliser)
    ensures forall k :: k in CanonicalIndex(values, norm).m ==>
      CanonicalIndex(values, norm).m[k] in values && norm(CanonicalIndex(values, norm).m[k].value) == k
    decreases |values|
  {
    if values != [] {
      var n := |values| - 1;
      var e := values[n];
      var front := CanonicalIndex(values[..n], norm);
      var ci := CanonicalIndex(values, norm);
      CanonicalIndexEntries(values[..n], norm);
      assert ci.m == front.m[norm(e.value) := e];
      forall k | k in ci.m
        ensures ci.m[k] in values && norm(ci.m[k].value) == k
      {
        if k != norm(e.value) {
          assert ci.m[k] == front.m[k] && front.m[k] in values[..n];
          var j :| 0 <= j < n && values[..n][j] == front.m[k];
          assert values[j] == front.m[k];
        }
      }
    }
  }

  /**
   * One entry's synonyms: a key one of its new synonyms normalises to now
   * leads to that entry; every other key is left as it was.
   */
  lemma {:induction false} AddSynonymsAt(d: ODict<string, Cluster>, syns: seq<string>, e: Cluster,
                                        unique: set<string>, k: string, norm: Normaliser)
    requires d.Valid()
    ensures NewSynonymKey(syns, unique, k, norm) ==>
      k in AddSynonyms(d, syns, e, unique, norm).m && AddSynonyms(d, syns, e, unique, norm).m[k] == e
    ensures !NewSynonymKey(syns, unique, k, norm) ==>
      && (k in AddSynonyms(d, syns, e, unique, norm).m <==> k in d.m)
      && (k in d.m ==> AddSynonyms(d, syns, e, unique, norm).m[k] == d.m[k])
    decreases |syns|
  {
    if syns != [] {
      var n := |syns| - 1;
      var s := syns[n];
      var front := AddSynonyms(d, syns[..n], e, unique, norm);
      AddSynonymsAt(d, syns[..n], e, unique, k, norm);
      NewSynonymKeySplit(syns, unique, k, norm);
      if s !in unique {
        assert AddSynonyms(d, syns, e, unique, norm).m == front.m[norm(s) := e];
      }
    }
  }

  /** A new synonym normalising to `k` is the last synonym or an earlier one. */
  lemma NewSynonymKeySplit(syns: seq<string>, unique: set<string>, k: string, norm: Normaliser)
    requires syns != []
    ensures NewSynonymKey(syns, unique, k, norm) <==>
      NewSynonymKey(syns[..|syns| - 1], unique, k, norm) || (syns[|syns| - 1] !in unique && norm(syns[|syns| - 1]) == k)
  {
    var n := |syns| - 1;
    assert syns == syns[..n] + [syns[n]];
    if NewSynonymKey(syns, unique, k, norm) {
      var x :| x in syns && x !in unique && norm(x) == k;
      if x != syns[n] {
        assert x in syns[..n];
      }
    }
    if NewSynonymKey(syns[..n], unique, k, norm) {
      var x :| x in syns[..n] && x !in unique && norm(x) == k;
      assert x in syns;
    }
  }

  /** The synonym index has a key for each new synonym of an indexed entry, and no other key. */
  lemma {:induction false} SynonymIndexKeys(entries: seq<Cluster>, unique: set<string>, k: string, norm: Normaliser)
    ensures k in SynonymIndex(entries, unique, norm).m <==>
      exists e :: e in entries && NewSynonymKey(e.Synonyms(), unique, k, norm)
    decreases |entries|
  {
    if entries != [] {
      var n := |entries| - 1;
      var e := entries[n];
      var front := SynonymIndex(entries[..n], unique, norm);
      assert SynonymIndex(entries, unique, norm) == AddSynonyms(front, e.Synonyms(), e, unique, norm);
      SynonymIndexKeys(entries[..n], unique, k, norm);
      AddSynonymsAt(front, e.Synonyms(), e, unique, k, norm);
      SomeNewSynonymSplit(entries, unique, k, norm);
    }
  }

  /** Some entry of `entries` has a new synonym normalising to `k` exactly when the last one or an earlier one has. */
  lemma SomeNewSynonymSplit(entries: seq<Cluster>, unique: set<string>, k: string, norm: Normaliser)
    requires entries != []
    ensures (exists x :: x in entries && NewSynonymKey(x.Synonyms(), unique, k, norm)) <==>
      || NewSynonymKey(entries[|entries| - 1].Synonyms(), unique, k, norm)
      || (exists x :: x in entries[..|entries| - 1] && NewSynonymKey(x.Synonyms(), unique, k, norm))
  {
    var n := |entries| - 1;
    assert entries == entries[..n] + [entries[n]];
    if exists x :: x in entries && NewSynonymKey(x.Synonyms(), unique, k, norm) {
      var x :| x in entries && NewSynonymKey(x.Synonyms(), unique, k, norm);
      if x != entries[n] {
        assert x in entries[..n];
      }
    }
    if exists x :: x in entries[..n] && NewSynonymKey(x.Synonyms(), unique, k, norm) {
      var x :| x in entries[..n] && NewSynonymKey(x.Synonyms(), unique, k, norm);
      assert x in entries;
    }
  }

  /**
   * The synonym index only holds indexed entries, each under a key one of its
   * new synonyms normalises to.
   */
  lemma {:induction false} SynonymIndexEntries(entries: seq<Cluster>, unique: set<string>, norm: Normaliser)
    ensures forall k :: k in SynonymIndex(entries, unique, norm).m ==>
      SynonymIndex(entries, unique, norm).m[k] in entries
      && NewSynonymKey(SynonymIndex(entries, unique, norm).m[k].Synonyms(), unique, k, norm)
    decreases |entries|
  {
    if entries != [] {
      var n := |entries| - 1;
      var e := entries[n];
      SynonymIndexEntries(entries[..n], unique, norm);
      var front := SynonymIndex(entries[..n], unique, norm);
      assert forall x :: x in entries[..n] ==> x in entries;
      forall k | k in SynonymIndex(entries, unique, norm).m
        ensures SynonymIndex(entries, unique, norm).m[k] in entries
        ensures NewSynonymKey(SynonymIndex(entries, unique, norm).m[k].Synonyms(), unique, k, norm)
      {
        AddSynonymsAt(front, e.Synonyms(), e, unique, k, norm);
      }
    }
  }

  /** Under each synonym key, the synonym index holds the last entry with such a synonym. */
  lemma {:induction false} SynonymIndexLast(entries: seq<Cluster>, unique: set<string>, i: nat, k: string, norm: Normaliser)
    requires i < |entries| && NewSynonymKey(entries[i].Synonyms(), unique, k, norm)
    requires forall j :: i < j < |entries| ==> !NewSynonymKey(entries[j].Synonyms(), unique, k, norm)
    ensures k in SynonymIndex(entries, unique, norm).m && SynonymIndex(entries, unique, norm).m[k] == entries[i]
    decreases |entries|, 1
  {
    var n := |entries| - 1;
    var e := entries[n];
    var front := SynonymIndex(entries[..n], unique, norm);
    assert SynonymIndex(entries, unique, norm) == AddSynonyms(front, e.Synonyms(), e, unique, norm);
    AddSynonymsAt(front, e.Synonyms(), e, unique, k, norm);
    if i < n {
      SynonymIndexLastFront(entries, unique, i, k, norm);
    }
  }

  /** The step of `SynonymIndexLast` for an entry before the last one: the index built without the last entry. */
  lemma {:induction false} SynonymIndexLastFront(entries: seq<Cluster>, unique: set<string>, i: nat, k: string, norm: Normaliser)
    requires i < |entries| - 1 && NewSynonymKey(entries[i].Synonyms(), unique, k, norm)
    requires forall j :: i < j < |entries| ==> !NewSynonymKey(entries[j].Synonyms(), unique, k, norm)
    ensures k in SynonymIndex(entries[..|entries| - 1], unique, norm).m && SynonymIndex(entries[..|entries| - 1], unique, norm).m[k] == entries[i]
    decreases |entries|, 0
  {
    var n := |entries| - 1;
    var before := entries[..n];
    forall j | i < j < |before|
      ensures !NewSynonymKey(before[j].Synonyms(), unique, k, norm)
    {
      assert before[j] == entries[j];
    }
    assert before[i] == entries[i];
    SynonymIndexLast(before, unique, i, k, norm);
  }

  /** Every value's normal form is a key of the finished index. */
  lemma IndexHasCanonicalKeys(values: seq<Cluster>, norm: Normaliser)
    ensures forall v :: v in values ==> norm(v.value) in BuildIndex(values, norm).m
  {
    forall v | v in values
      ensures norm(v.value) in BuildIndex(values, norm).m
    {
      CanonicalIndexKeys(values, norm(v.value), norm);
    }
  }

  /**
   * The keys of the finished index: the values' normal forms and the normal
   * forms of the new synonyms of the indexed entries.
   */
  lemma IndexKeys(values: seq<Cluster>, k: string, norm: Normaliser)
    ensures k in BuildIndex(values, norm).m <==>
      || (exists v :: v in values && norm(v.value) == k)
      || (exists e :: e in CanonicalIndex(values, norm).Values() && NewSynonymKey(e.Synonyms(), UniqueLabels(values), k, norm))
  {
    CanonicalIndexKeys(values, k, norm);
    SynonymIndexKeys(CanonicalIndex(values, norm).Values(), UniqueLabels(values), k, norm);
  }

  /** The entries the canonical index lists are values of the galaxy. */
  lemma CanonicalValuesIn(values: seq<Cluster>, norm: Normaliser)
    ensures forall e :: e in CanonicalIndex(values, norm).Values() ==> e in values
  {
    var canonical := CanonicalIndex(values, norm);
    var entries := canonical.Values();
    CanonicalIndexEntries(values, norm);
    forall e | e in entries
      ensures e in values
    {
      var i :| 0 <= i < |entries| && entries[i] == e;
      assert e == canonical.m[canonical.keys[i]];
    }
  }

  /**
   * Each key of the finished index leads to an entry of the galaxy: when some
   * indexed entry has a new synonym with that normal form, to such an entry,
   * whatever value shares the key; otherwise to the entry whose value has
   * that normal form.
   */
  lemma IndexEntry(values: seq<Cluster>, k: string, norm: Normaliser)
    requires k in BuildIndex(values, norm).m
    ensures BuildIndex(values, norm).m[k] in values
    ensures (exists e :: e in CanonicalIndex(values, norm).Values() && NewSynonymKey(e.Synonyms(), UniqueLabels(values), k, norm))
      ==> NewSynonymKey(BuildIndex(values, norm).m[k].Synonyms(), UniqueLabels(values), k, norm)
    ensures !(exists e :: e in CanonicalIndex(values, norm).Values() && NewSynonymKey(e.Synonyms(), UniqueLabels(values), k, norm))
      ==> (k in CanonicalIndex(values, norm).m && BuildIndex(values, norm).m[k] == CanonicalIndex(values, norm).m[k]
           && norm(BuildIndex(values, norm).m[k].value) == k)
  {
    var canonical := CanonicalIndex(values, norm);
    var entries := canonical.Values();
    var unique := UniqueLabels(values);
    var syn := SynonymIndex(entries, unique, norm);
    var idx := BuildIndex(values, norm);
    assert idx.m == canonical.m + syn.m;
    SynonymIndexKeys(entries, unique, k, norm);
    if k in syn.m {
      SynonymIndexEntries(entries, unique, norm);
      CanonicalValuesIn(values, norm);
      assert idx.m[k] == syn.m[k] && syn.m[k] in entries;
    } else {
      CanonicalIndexEntries(values, norm);
      assert idx.m[k] == canonical.m[k];
    }
  }

  // ------------------------------------------------------------------- hints

  /** The position of the first highest score, as Python's `max` with a key function picks it. */
  function FirstArgMax(ks: seq<string>, score: string -> real): (i: nat)
    requires |ks| > 0
    ensures i < |ks|
    ensures forall j :: 0 <= j < |ks| ==> score(ks[j]) <= score(ks[i])
    ensures forall j :: 0 <= j < i ==> score(ks[j]) < score(ks[i])
    decreases |ks|
  {
    if |ks| == 1 then 0
    else
      var i := FirstArgMax(ks[..|ks| - 1], score);
      if score(ks[|ks| - 1]) > score(ks[i]) then |ks| - 1 else i
  }

  /** Some candidate name holds the hint, ignoring case. */
  predicate HintFound(names: seq<string>, hint: string) {
    exists x :: x in names && Contains(Lower(x), Lower(hint))
  }

  /** The score `_select_using_hint` gives a candidate name. */
  function HintScore(ratio: Ratio, hint: string): string -> real {
    k => ratio(Normalize(k), Normalize(hint))
  }

  /**
   * `_select_using_hint`: when some candidate name contains the hint, the
   * first candidate whose normal form scores highest against the hint's;
   * otherwise the first candidate.
   */
  function SelectUsingHint(cands: ODict<string, Cluster>, hint: string, ratio: Ratio): (r: (string, Cluster))
    requires cands.Valid() && cands.keys != []
    ensures r.0 in cands.m && r.1 == cands.m[r.0]
    ensures !HintFound(cands.keys, hint) ==> r.0 == cands.keys[0]
    ensures HintFound(cands.keys, hint) ==>
      exists i :: 0 <= i < |cands.keys| && r.0 == cands.keys[i]
        && (forall j :: 0 <= j < |cands.keys| ==> HintScore(ratio, hint)(cands.keys[j]) <= HintScore(ratio, hint)(cands.keys[i]))
        && (forall j :: 0 <= j < i ==> HintScore(ratio, hint)(cands.keys[j]) < HintScore(ratio, hint)(cands.keys[i]))
  {
    var name := if HintFound(cands.keys, hint) then cands.keys[FirstArgMax(cands.keys, HintScore(ratio, hint))]
                else cands.keys[0];
    (name, cands.m[name])
  }

  // ------------------------------------------------------------ discernment

  /** A discerner class: the galaxy it reads and the source it reports. */
  datatype DiscernerClass = DiscernerClass(galaxy: string, source: string)

  /** `BaseDiscerner.create_class`: a missing or empty source becomes "custom". */
  function CreateClass(cluster: string, source: Option<string>): (c: DiscernerClass)
    ensures c.galaxy == cluster && c.source != ""
    ensures source.Some? && source.value != "" ==> c.source == source.value
    ensures source.None? || source.value == "" ==> c.source == "custom"
  {
    DiscernerClass(cluster, if source.None? || source.value == "" then "custom" else source.value)
  }

  const MispActorDiscerner := DiscernerClass("threat-actor", "misp")
  const MitreActorDiscerner := DiscernerClass("mitre-intrusion-set", "mitre")
  const MalpediaFamilyDiscerner := DiscernerClass("malpedia", "malpedia")
  const MispToolDiscerner := DiscernerClass("tool", "misp")
  const MitreMalwareDiscerner := DiscernerClass("mitre-malware", "mitre")
  const MitreToolDiscerner := DiscernerClass("mitre-tool", "mitre")

  /** `PREFIX_PERCENTAGE`. */
  const PrefixPercentage: nat := 90

  /** The length of the leading `PREFIX_PERCENTAGE` percent of a label, rounded down. */
  function PrefixLen(n: nat): (p: nat)
    ensures p <= n
  {
    n * PrefixPercentage / 100
  }

  /** The close matches that share the label's leading 90 percent. */
  function PrefixMatches(text: string, matches: seq<string>): (r: seq<string>)
    ensures forall x :: x in r <==> x in matches && StartsWith(x, text[..PrefixLen(|text|)])
  {
    if matches == [] then []
    else (if StartsWith(matches[0], text[..PrefixLen(|text|)]) then [matches[0]] else [])
         + PrefixMatches(text, matches[1..])
  }

  /** Keeping the prefix-sharing matches distributes over concatenation, so their order is kept. */
  lemma {:induction false} PrefixMatchesAppend(text: string, a: seq<string>, b: seq<string>)
    ensures PrefixMatches(text, a + b) == PrefixMatches(text, a) + PrefixMatches(text, b)
    decreases |a|
  {
    if a == [] {
      assert a + b == b;
    } else {
      assert (a + b)[0] == a[0] && (a + b)[1..] == a[1..] + b;
      PrefixMatchesAppend(text, a[1..], b);
    }
  }

  /** The first kept match is the first close match that shares the prefix. */
  lemma {:induction false} PrefixMatchesFirst(text: string, matches: seq<string>) returns (k: nat)
    requires PrefixMatches(text, matches) != []
    ensures k < |matches| && StartsWith(matches[k], text[..PrefixLen(|text|)])
    ensures forall j :: 0 <= j < k ==> !StartsWith(matches[j], text[..PrefixLen(|text|)])
    ensures PrefixMatches(text, matches)[0] == matches[k]
    decreases |matches|
  {
    if StartsWith(matches[0], text[..PrefixLen(|text|)]) {
      k := 0;
    } else {
      var k' := PrefixMatchesFirst(text, matches[1..]);
      k := 1 + k';
    }
  }

  /** The indexed entries of the matched labels, in the labels' order. */
  function EntriesOf(xs: seq<string>, index: ODict<string, Cluster>): (es: seq<Cluster>)
    requires forall x :: x in xs ==> x in index.m
    ensures |es| == |xs| && forall i :: 0 <= i < |xs| ==> es[i] == index.m[xs[i]]
    decreases |xs|
  {
    if xs == [] then [] else EntriesOf(xs[..|xs| - 1], index) + [index.m[xs[|xs| - 1]]]
  }

  /** The `value` of each entry, in order. */
  function ValuesOf(es: seq<Cluster>): (vs: seq<string>)
    ensures |vs| == |es| && forall i :: 0 <= i < |es| ==> vs[i] == es[i].value
    decreases |es|
  {
    if es == [] then [] else ValuesOf(es[..|es| - 1]) + [es[|es| - 1].value]
  }

  /** `{e["value"]: e for e in es}`: entries keyed by their values, later ones overwriting. */
  function ByValue(es: seq<Cluster>): (r: ODict<string, Cluster>)
    ensures r.Valid()
    ensures r.keys == [] <==> es == []
    ensures forall name :: name in r.m ==> r.m[name].value == name
    ensures forall i :: 0 <= i < |es| ==> es[i].value in r.m
    decreases |es|
  {
    if es == [] then Empty()
    else
      var e := es[|es| - 1];
      ByValue(es[..|es| - 1]).Put(e.value, e)
  }

  /** Every entry of `ByValue` is one of the given entries. */
  lemma {:induction false} ByValueFrom(es: seq<Cluster>)
    ensures forall name :: name in ByValue(es).m ==> ByValue(es).m[name] in es
    decreases |es|
  {
    if es != [] {
      var m := |es| - 1;
      ByValueFrom(es[..m]);
      assert ByValue(es) == ByValue(es[..m]).Put(es[m].value, es[m]);
      assert forall e :: e in es[..m] ==> e in es;
    }
  }

  /** The keys of `ByValue` are the entries' values, each once, in the order in which each first appears. */
  lemma {:induction false} ByValueKeys(es: seq<Cluster>, present: set<string>)
    requires forall i :: 0 <= i < |es| ==> es[i].value in present
    ensures ByValue(es).keys == LoadOrder(ValuesOf(es), present)
    decreases |es|
  {
    if es != [] {
      var m := |es| - 1;
      var vs := ValuesOf(es);
      assert ByValue(es) == ByValue(es[..m]).Put(es[m].value, es[m]);
      assert vs[..m] == ValuesOf(es[..m]);
      ByValueKeys(es[..m], present);
      assert LoadOrder(vs, present)
          == var front := LoadOrder(vs[..m], present);
             if vs[m] in present && vs[m] !in front then front + [vs[m]] else front;
    }
  }

  /** The keys of `ByValue` are the entries' values, in the order in which each first appears. */
  lemma ByValueOrder(es: seq<Cluster>)
    ensures forall name :: name in ByValue(es).keys <==> name in ValuesOf(es)
    ensures forall a, b :: 0 <= a < b < |ByValue(es).keys| ==>
      FirstPos(ValuesOf(es), ByValue(es).keys[a]) < FirstPos(ValuesOf(es), ByValue(es).keys[b])
  {
    var present := set v | v in ValuesOf(es);
    ByValueKeys(es, present);
    LoadOrderFirstSeen(ValuesOf(es), present);
  }

  /** The first key of `ByValue` is the first entry's value. */
  lemma {:induction false} ByValueFirst(es: seq<Cluster>)
    requires es != []
    ensures ByValue(es).keys[0] == es[0].value
    decreases |es|
  {
    var m := |es| - 1;
    assert ByValue(es) == ByValue(es[..m]).Put(es[m].value, es[m]);
    if m > 0 {
      ByValueFirst(es[..m]);
      assert es[..m][0] == es[0];
    }
  }

  /** The entry under a value is the last entry with that value. */
  lemma {:induction false} ByValueLast(es: seq<Cluster>, i: nat)
    requires i < |es| && forall j :: i < j < |es| ==> es[j].value != es[i].value
    ensures ByValue(es).m[es[i].value] == es[i]
    decreases |es|
  {
    var m := |es| - 1;
    var front := ByValue(es[..m]);
    assert ByValue(es).m == front.m[es[m].value := es[m]];
    if i < m {
      var e := es[i];
      assert es[..m][i] == e;
      assert forall j :: i < j < m ==> es[..m][j].value != e.value by {
        forall j | i < j < m ensures es[..m][j].value != e.value {
          assert es[..m][j] == es[j];
        }
      }
      ByValueLast(es[..m], i);
      assert es[m].value != e.value;
    }
  }

  /** No matched label after the `i`-th has the same entry value. */
  predicate LastOfValue(xs: seq<string>, index: ODict<string, Cluster>, i: nat)
    requires forall x :: x in xs ==> x in index.m
    requires i < |xs|
  {
    forall j :: i < j < |xs| ==> index.m[xs[j]].value != index.m[xs[i]].value
  }

  /** The indexed entries of the matched labels, keyed by their values, later ones overwriting. */
  function EntriesByValue(xs: seq<string>, index: ODict<string, Cluster>): (r: ODict<string, Cluster>)
    requires index.Valid() && forall x :: x in xs ==> x in index.m
    ensures r.Valid()
    ensures r.keys == [] <==> xs == []
    ensures forall name :: name in r.m ==>
      r.m[name].value == name && exists x :: x in xs && r.m[name] == index.m[x]
    ensures forall x :: x in xs ==> index.m[x].value in r.m
  {
    var es := EntriesOf(xs, index);
    ByValueFrom(es);
    assert forall e :: e in es ==> exists x :: x in xs && e == index.m[x];
    assert forall x :: x in xs ==> index.m[x] in es;
    ByValue(es)
  }

  /** The keys of `EntriesByValue` are the matched labels' entry values, in the order in which each first appears. */
  lemma EntriesByValueOrder(xs: seq<string>, index: ODict<string, Cluster>)
    requires index.Valid() && forall x :: x in xs ==> x in index.m
    ensures forall name :: name in EntriesByValue(xs, index).m <==> name in ValuesOf(EntriesOf(xs, index))
    ensures forall a, b :: 0 <= a < b < |EntriesByValue(xs, index).keys| ==>
      FirstPos(ValuesOf(EntriesOf(xs, index)), EntriesByValue(xs, index).keys[a])
      < FirstPos(ValuesOf(EntriesOf(xs, index)), EntriesByValue(xs, index).keys[b])
  {
    ByValueOrder(EntriesOf(xs, index));
  }

  /** The first key of `EntriesByValue` is the entry value of the first matched label. */
  lemma EntriesByValueFirst(xs: seq<string>, index: ODict<string, Cluster>)
    requires index.Valid() && forall x :: x in xs ==> x in index.m
    requires xs != []
    ensures EntriesByValue(xs, index).keys[0] == index.m[xs[0]].value
  {
    ByValueFirst(EntriesOf(xs, index));
  }

  /** The entry under a value comes from the last matched label with that value. */
  lemma EntriesByValueLast(xs: seq<string>, index: ODict<string, Cluster>, i: nat)
    requires index.Valid() && forall x :: x in xs ==> x in index.m
    requires i < |xs| && LastOfValue(xs, index, i)
    ensures EntriesByValue(xs, index).m[index.m[xs[i]].value] == index.m[xs[i]]
  {
    ByValueLast(EntriesOf(xs, index), i);
  }

  /**
   * `_discern` for the normalised label `n` over an index and its key set: a
   * class word fails; an exact hit gives that one entry, even when partial
   * matches are allowed; otherwise, when they are, the close matches sharing
   * the label's leading 90 percent, each under its entry's value, and no such
   * match fails too.
   */
  function MatchNormalized(index: ODict<string, Cluster>, labels: set<string>, n: string, partial: bool,
                           cm: CloseMatcher): (r: Result<ODict<string, Cluster>, Error>)
    requires index.Valid() && labels == index.m.Keys && ValidCloseMatcher(cm)
    ensures r.Err? ==> r.error == FailedDiscernment
    ensures n in AvClasses ==> r.Err?
    ensures n !in AvClasses && n in index.m ==> r == Ok(Singleton(index.m[n].value, index.m[n]))
    ensures n !in index.m && !partial ==> r.Err?
    ensures n !in AvClasses && n !in index.m && partial ==>
      (r.Ok? <==> PrefixMatches(n, cm(n, labels)) != [])
    ensures r.Ok? ==> r.value.Valid() && r.value.keys != []
    ensures r.Ok? ==> forall name :: name in r.value.m ==>
      r.value.m[name].value == name
      && exists x :: x in index.m && r.value.m[name] == index.m[x] && StartsWith(x, n[..PrefixLen(|n|)])
    ensures r.Ok? && n !in index.m ==> forall name :: name in r.value.m ==>
      exists x :: x in cm(n, labels) && x in index.m && r.value.m[name] == index.m[x] && StartsWith(x, n[..PrefixLen(|n|)])
    ensures n !in AvClasses && n !in index.m && partial ==>
      forall x :: x in PrefixMatches(n, cm(n, labels)) ==> r.Ok? && x in index.m && index.m[x].value in r.value.m
  {
    if n in AvClasses then Err(FailedDiscernment)
    else if n in index.m then
      var e := index.m[n];
      Ok(Singleton(e.value, e))
    else if partial then
      var ret := EntriesByValue(PrefixMatches(n, cm(n, labels)), index);
      if ret.keys != [] then Ok(ret) else Err(FailedDiscernment)
    else Err(FailedDiscernment)
  }

  /**
   * On the partial path the first candidate, which `discern` takes without a
   * hint, is the entry value of the first close match sharing the label's
   * leading 90 percent; the others follow in order of their first match.
   */
  lemma MatchNormalizedFirst(index: ODict<string, Cluster>, labels: set<string>, n: string, partial: bool,
                             cm: CloseMatcher) returns (k: nat)
    requires index.Valid() && labels == index.m.Keys && ValidCloseMatcher(cm)
    requires n !in AvClasses && n !in index.m && partial
    requires MatchNormalized(index, labels, n, partial, cm).Ok?
    ensures k < |cm(n, labels)| && cm(n, labels)[k] in index.m
    ensures StartsWith(cm(n, labels)[k], n[..PrefixLen(|n|)])
    ensures forall j :: 0 <= j < k ==> !StartsWith(cm(n, labels)[j], n[..PrefixLen(|n|)])
    ensures MatchNormalized(index, labels, n, partial, cm).value.keys[0] == index.m[cm(n, labels)[k]].value
  {
    var xs := PrefixMatches(n, cm(n, labels));
    k := PrefixMatchesFirst(n, cm(n, labels));
    EntriesByValueFirst(xs, index);
  }

  /** The outcome of `discern`. */
  datatype Discernment = Discernment(inputLabel: string, discernedName: string, source: string,
                                     galaxy: string, rawData: Cluster)
  {
    /**
     * `get_tag`: the local tag `misp-galaxy:<galaxy>="<name>"`, or the entry's
     * own `tag_name`, which raises `KeyError` when the entry has none.
     */
    function GetTag(resolveLocal: bool): (r: Result<string, Error>)
      ensures resolveLocal ==> r == Ok(CreateClusterTag(TagPrefix(galaxy), discernedName))
      ensures !resolveLocal ==> (r.Ok? <==> rawData.tagName.Some?)
      ensures !resolveLocal && r.Ok? ==> r.value == rawData.tagName.value
      ensures r.Err? ==> r.error == KeyError("tag_name")
    {
      if resolveLocal then Ok(GalaxyNamespace + ":" + galaxy + "=\"" + discernedName + "\"")
      else if rawData.tagName.Some? then Ok(rawData.tagName.value)
      else Err(KeyError("tag_name"))
    }
  }

  /** The local tag of a discernment names the discerner's galaxy. */
  lemma LocalTagNamesGalaxy(d: Discernment)
    requires ':' !in d.galaxy && '=' !in d.galaxy
    ensures d.GetTag(true).Ok? && GalaxyNameOfTag(d.GetTag(true).value) == Some(d.galaxy)
  {
    ClusterTagGalaxyName(d.galaxy, d.discernedName);
  }

  /** The first loop of `BaseDiscerner.__init__`: the canonical index and the known labels. */
  method IndexValues(values: seq<Cluster>) returns (canonical: ODict<string, Cluster>, unique: set<string>)
    ensures canonical == CanonicalIndex(values, Normalize)
    ensures unique == UniqueLabels(values)
  {
    canonical := Empty();
    unique := {};
    var i := 0;
    while i < |values|
      invariant 0 <= i <= |values|
      invariant canonical == CanonicalIndex(values[..i], Normalize)
      invariant unique == UniqueLabels(values[..i])
    {
      var entry := values[i];
      assert values[..i + 1][..i] == values[..i];
      canonical := canonical.Put(Normalize(entry.value), entry);
      unique := unique + {entry.value, StripQualifiers(entry.value)};
      i := i + 1;
    }
    assert values[..i] == values;
  }

  /** The inner synonym loop of `BaseDiscerner.__init__`, for one indexed entry. */
  method IndexEntrySynonyms(d: ODict<string, Cluster>, entry: Cluster, unique: set<string>)
    returns (r: ODict<string, Cluster>)
    requires d.Valid()
    ensures r == AddSynonyms(d, entry.Synonyms(), entry, unique, Normalize)
  {
    var labelSynonyms := entry.Synonyms();
    r := d;
    var s := 0;
    while s < |labelSynonyms|
      invariant 0 <= s <= |labelSynonyms|
      invariant r == AddSynonyms(d, labelSynonyms[..s], entry, unique, Normalize)
    {
      assert labelSynonyms[..s + 1][..s] == labelSynonyms[..s];
      if labelSynonyms[s] !in unique {
        r := r.Put(Normalize(labelSynonyms[s]), entry);
      }
      s := s + 1;
    }
    assert labelSynonyms[..s] == labelSynonyms;
  }

  /** The synonym loop of `BaseDiscerner.__init__`, over the indexed entries. */
  method IndexSynonyms(entries: seq<Cluster>, unique: set<string>) returns (synonyms: ODict<string, Cluster>)
    ensures synonyms == SynonymIndex(entries, unique, Normalize)
  {
    synonyms := Empty();
    var e := 0;
    while e < |entries|
      invariant 0 <= e <= |entries|
      invariant synonyms == SynonymIndex(entries[..e], unique, Normalize)
    {
      assert entries[..e + 1][..e] == entries[..e];
      synonyms := IndexEntrySynonyms(synonyms, entries[e], unique);
      e := e + 1;
    }
    assert entries[..e] == entries;
  }

  /** `BaseDiscerner`: one galaxy's entries indexed by normalised label. */
  class BaseDiscerner {
    const galaxy: string
    const source: string
    ghost const values: seq<Cluster>
    const entryByNormLabel: ODict<string, Cluster>
    const uniqueNormalizedLabels: set<string>

    ghost predicate Valid() {
      && entryByNormLabel == BuildIndex(values, Normalize)
      && uniqueNormalizedLabels == entryByNormLabel.m.Keys
    }

    /** `BaseDiscerner.__init__` over the `values` of the class's galaxy. */
    constructor (cls: DiscernerClass, galaxyValues: seq<Cluster>)
      ensures galaxy == cls.galaxy && source == cls.source && values == galaxyValues
      ensures Valid()
    {
      galaxy := cls.galaxy;
      source := cls.source;
      values := galaxyValues;
      var canonical, unique := IndexValues(galaxyValues);
      var synonyms := IndexSynonyms(canonical.Values(), unique);
      var merged := canonical.Update(synonyms);
      entryByNormLabel := merged;
      uniqueNormalizedLabels := merged.m.Keys;
    }

    /** `_discern`: the normalised label looked up in this discerner's index. */
    function Match(text: string, partial: bool, cm: CloseMatcher): (r: Result<ODict<string, Cluster>, Error>)
      requires Valid() && ValidCloseMatcher(cm)
      ensures r == MatchNormalized(entryByNormLabel, uniqueNormalizedLabels, Normalize(text), partial, cm)
      ensures Normalize(text) in AvClasses ==> r == Err(FailedDiscernment)
    {
      MatchNormalized(entryByNormLabel, uniqueNormalizedLabels, Normalize(text), partial, cm)
    }

    /**
     * `discern`: the candidates of `_discern`; with more than one and a
     * non-empty hint the hint selects one, otherwise the first is taken.
     */
    function Discern(text: string, partial: bool, hint: Option<string>, cm: CloseMatcher, ratio: Ratio)
      : (r: Result<Discernment, Error>)
      requires Valid() && ValidCloseMatcher(cm)
      ensures r.Err? <==> Match(text, partial, cm).Err?
      ensures r.Err? ==> r.error == FailedDiscernment
      ensures r.Ok? ==> (var cands := Match(text, partial, cm).value;
        && r.value.inputLabel == text && r.value.source == source && r.value.galaxy == galaxy
        && r.value.discernedName in cands.m && r.value.rawData == cands.m[r.value.discernedName]
        && (|cands.keys| == 1 || hint.None? || hint.value == "" ==> r.value.discernedName == cands.keys[0])
        && (|cands.keys| > 1 && hint.Some? && hint.value != "" ==>
              (r.value.discernedName, r.value.rawData) == SelectUsingHint(cands, hint.value, ratio)))
    {
      match Match(text, partial, cm)
      case Err(e) => Err(e)
      case Ok(cands) =>
        var chosen := if |cands.keys| > 1 && hint.Some? && hint.value != "" then SelectUsingHint(cands, hint.value, ratio)
                      else (cands.keys[0], cands.m[cands.keys[0]]);
        Ok(Discernment(text, chosen.0, source, galaxy, chosen.1))
    }
  }

  /** A discerner of a class, over the galaxy the manager loaded under the class's galaxy name. */
  method NewDiscerner(manager: GalaxyManager, cls: DiscernerClass) returns (r: Result<BaseDiscerner, Error>)
    requires manager.Valid()
    ensures r.Err? <==> cls.galaxy !in manager.GalaxyNames()
    ensures r.Err? ==> r.error == NonExistingGalaxy(cls.galaxy)
    ensures r.Ok? ==> (fresh(r.value) && r.value.Valid()
                       && r.value.galaxy == cls.galaxy && r.value.source == cls.source
                       && r.value.values == manager.galaxies.m[cls.galaxy].values)
  {
    match manager.GetGalaxy(cls.galaxy)
    case Err(e) =>
      r := Err(e);
    case Ok(g) =>
      var d := new BaseDiscerner(cls, g.values);
      r := Ok(d);
  }
}
