/**
 The bounded caches of tokenized and compiled selectors, and the bookkeeping of texts in `select` that
 decides what is looked up in them. A compiled selector is represented by the token groups that it was
 compiled from, so the question is whether a text always brings back the right ones.
 */
module SelectorCache {
  import opened Sequences
  import opened Lexer
  import opened Tokenizer

  const CACHE_LENGTH: nat := 50

  function Key(selector: string): string {
    selector + " "
  }

  /** What is stored under a text is what the text reads as. */
  ghost predicate Sound(stored: map<string, seq<seq<Lexeme>>>) {
    forall selector :: Key(selector) in stored ==> GroupsOf(selector) == Some(stored[Key(selector)])
  }

  /** The keys are listed once each, oldest first, and there are not too many. */
  ghost predicate Listed(keys: seq<string>, stored: map<string, seq<seq<Lexeme>>>) {
    Distinct(keys) && |keys| <= CACHE_LENGTH && forall k :: k in keys <==> k in stored
  }

  lemma KeysDiffer(a: string, b: string)
    ensures Key(a) == Key(b) <==> a == b
  {
    assert Key(a)[..|a|] == a && Key(b)[..|b|] == b;
  }

  class Cache {
    var keys: seq<string>
    var stored: map<string, seq<seq<Lexeme>>>

    ghost predicate Valid()
      reads this
    {
      Listed(keys, stored) && Sound(stored)
    }

    constructor ()
      ensures Valid() && stored == map[]
    {
      keys, stored := [], map[];
    }

    /**
     Stores under a text what it reads as, and drops the oldest entry when there are too many. Storing
     again under a text that is there lists its key twice, and dropping the first of the two would lose
     the entry; unless that entry is just the one that is dropped.
     */
    method Store(selector: string, groups: seq<seq<Lexeme>>)
      requires Valid() && GroupsOf(selector) == Some(groups)
      modifies this
      ensures Sound(stored) && Key(selector) in stored
      ensures Valid() <==>
        Key(selector) !in old(stored) || (|old(keys)| == CACHE_LENGTH && Key(selector) == old(keys)[0])
      ensures keys == (if |old(keys)| < CACHE_LENGTH then old(keys) else old(keys)[1..]) + [Key(selector)]
      ensures forall k :: k in stored && k != Key(selector) ==> k in old(stored) && stored[k] == old(stored)[k]
    {
      hide GroupsOf;
      var key := Key(selector);
      keys := keys + [key];
      if |keys| > CACHE_LENGTH {
        var oldest := keys[0];
        keys := keys[1..];
        stored := stored - {oldest};
      }
      StillListed(old(keys), old(stored), keys, stored[key := groups], key);
      stored := stored[key := groups];
      forall s | Key(s) in stored ensures GroupsOf(s) == Some(stored[Key(s)]) {
        KeysDiffer(s, selector);
      }
    }
  }

  lemma StillListed(keys: seq<string>, stored: map<string, seq<seq<Lexeme>>>,
                    keys': seq<string>, stored': map<string, seq<seq<Lexeme>>>, key: string)
    requires Listed(keys, stored)
    requires keys' == (if |keys| < CACHE_LENGTH then keys else keys[1..]) + [key]
    requires stored'.Keys == (if |keys| < CACHE_LENGTH then stored.Keys else stored.Keys - {keys[0]}) + {key}
    ensures Listed(keys', stored') <==> key !in stored || (|keys| == CACHE_LENGTH && key == keys[0])
  {
    var full := |keys| == CACHE_LENGTH;
    var kept := if full then keys[1..] else keys;
    assert forall i :: 0 <= i < |kept| ==> kept[i] == keys[if full then i + 1 else i];
    assert full ==> keys == [keys[0]] + kept;
    assert keys'[|kept|] == key && forall i :: 0 <= i < |kept| ==> keys'[i] == kept[i];
    if key in kept {
      var i :| 0 <= i < |kept| && kept[i] == key;
      assert keys'[i] == keys'[|kept|];
    }
  }

  // ---------------------------------------------------------------- the two uses of a cache

  /** tokenize, with its cache. */
  method TokenizeCached(cache: Cache, selector: string) returns (result: Option<seq<seq<Lexeme>>>)
    requires cache.Valid()
    modifies cache
    ensures cache.Valid() && result == GroupsOf(selector)
  {
    hide GroupsOf;
    if Key(selector) in cache.stored {
      return Some(cache.stored[Key(selector)]);
    }
    result := Tokenize(selector);
    if result.Some? {
      cache.Store(selector, result.value);
    }
  }

  /** compile: `match_` saves tokenizing again, and is trusted to be what the text reads as. */
  method CompileCached(compilerCache: Cache, selector: string, match_: seq<seq<Lexeme>>)
    returns (groups: seq<seq<Lexeme>>)
    requires compilerCache.Valid() && GroupsOf(selector) == Some(match_)
    modifies compilerCache
    ensures compilerCache.Valid() && groups == match_
  {
    hide GroupsOf;
    if Key(selector) in compilerCache.stored {
      return compilerCache.stored[Key(selector)];
    }
    compilerCache.Store(selector, match_);
    groups := match_;
  }

  // ---------------------------------------------------------------- the texts of a query

  /** The rightmost token before i that the document looks up, unless a combinator comes first. */
  function SeedIndex(tokens: seq<Lexeme>, found: set<nat>, i: nat): (r: Option<nat>)
    requires i <= |tokens|
    ensures r.Some? ==> r.value < i
    ensures r.Some? ==> forall j :: r.value < j < i ==> tokens[j].kind !in {CombinatorKind, TagKind}
  {
    if i == 0 || tokens[i - 1].kind == CombinatorKind then None
    else if Seeds(tokens, found, i - 1) then Some(i - 1)
    else SeedIndex(tokens, found, i - 1)
  }

  /** Looking up by tag name always finds a list; whether the others do depends on the context. */
  predicate Seeds(tokens: seq<Lexeme>, found: set<nat>, i: nat)
    requires i < |tokens|
  {
    tokens[i].kind == TagKind || ((tokens[i].kind == ClassKind || tokens[i].kind == IdKind) && i in found)
  }

  /** Token i can be looked up, and no token behind it can, nor is one a combinator. */
  predicate RightmostSeed(tokens: seq<Lexeme>, found: set<nat>, i: nat) {
    && i < |tokens| && Seeds(tokens, found, i)
    && forall j :: i < j < |tokens| ==> tokens[j].kind != CombinatorKind && !Seeds(tokens, found, j)
  }

  lemma {:induction false} SeedIndexMeaning(tokens: seq<Lexeme>, found: set<nat>, n: nat, i: nat)
    requires i < n <= |tokens|
    requires forall j :: n <= j < |tokens| ==> tokens[j].kind != CombinatorKind && !Seeds(tokens, found, j)
    ensures RightmostSeed(tokens, found, i) ==> SeedIndex(tokens, found, n) == Some(i)
    ensures SeedIndex(tokens, found, n) == Some(i) ==> RightmostSeed(tokens, found, i)
  {
    if tokens[n - 1].kind != CombinatorKind && !Seeds(tokens, found, n - 1) && i < n - 1 {
      SeedIndexMeaning(tokens, found, n - 1, i);
    }
  }

  /** Just the rightmost token that can be looked up is taken out, if there is one behind the last combinator. */
  lemma RightmostTakenOut(tokens: seq<Lexeme>, found: set<nat>)
    ensures forall i: nat :: RightmostSeed(tokens, found, i) ==>
      WithoutSeed(tokens, false, found) == tokens[..i] + tokens[i + 1..]
    ensures (forall i: nat :: !RightmostSeed(tokens, found, i)) ==> WithoutSeed(tokens, false, found) == tokens
    ensures WithoutSeed(tokens, true, found) == tokens
  {
    var seed := SeedIndex(tokens, found, |tokens|);
    if seed.Some? {
      SeedIndexMeaning(tokens, found, |tokens|, seed.value);
    }
    forall i: nat | RightmostSeed(tokens, found, i) ensures seed == Some(i) {
      SeedIndexMeaning(tokens, found, |tokens|, i);
    }
  }

  predicate LeadsWithId(group: seq<Lexeme>) {
    |group| > 2 && group[0].kind == IdKind && group[1].kind == CombinatorKind
  }

  /** The tokens that are left when the seed has been taken out. */
  function WithoutSeed(tokens: seq<Lexeme>, needsContext: bool, found: set<nat>): seq<Lexeme> {
    var seed := if needsContext then None else SeedIndex(tokens, found, |tokens|);
    if seed.None? then tokens else tokens[..seed.value] + tokens[seed.value + 1..]
  }

  /** The groups that are left to match when a leading id and a seed have been taken out. */
  function LeftOver(groups: seq<seq<Lexeme>>, inDocument: bool, needsContext: bool, found: set<nat>): seq<seq<Lexeme>> {
    if |groups| != 1 then groups
    else [WithoutSeed(if inDocument && LeadsWithId(groups[0]) then groups[0][1..] else groups[0], needsContext, found)]
  }

  /** The search for a seed from the right; the text is empty when nothing but the seed is asked for. */
  method TakeSeed(selector: string, tokens: seq<Lexeme>, needsContext: bool, found: set<nat>)
    returns (text: string, rest: seq<Lexeme>)
    requires GroupsOf(selector) == Some([tokens])
    ensures rest == WithoutSeed(tokens, needsContext, found)
    ensures text != "" ==> GroupsOf(text) == Some([rest])
  {
    hide GroupsOf;
    var i := if needsContext then 0 else |tokens|;
    while i > 0 && tokens[i - 1].kind != CombinatorKind
      invariant 0 <= i <= |tokens| && (needsContext ==> i == 0)
      invariant !needsContext ==> SeedIndex(tokens, found, |tokens|) == SeedIndex(tokens, found, i)
    {
      i := i - 1;
      if Seeds(tokens, found, i) {
        if |tokens| > 1 {
          SplicedTextIsRead(selector, tokens, i);
        }
        rest := tokens[..i] + tokens[i + 1..];
        text := ToSelector(rest);
        return;
      }
    }
    return selector, tokens;
  }

  /**
   The way of a selector's text through `select`: the leading id is cut off, the seed token is spliced
   out and the rest printed again, and what that text brings back from the caches is compiled and run.
   Whatever earlier queries left in the caches, it is what remains to be matched. None stands for a
   malformed selector; when nothing remains the seed is the result and nothing is compiled.
   */
  method SelectText(tokenCache: Cache, compilerCache: Cache, text: string, inDocument: bool, needsContext: bool,
                    found: set<nat>)
    returns (result: Option<seq<seq<Lexeme>>>)
    requires tokenCache.Valid() && compilerCache.Valid() && tokenCache != compilerCache
    modifies tokenCache, compilerCache
    ensures tokenCache.Valid() && compilerCache.Valid()
    ensures result == if GroupsOf(text).None? then None
                      else Some(LeftOver(GroupsOf(text).value, inDocument, needsContext, found))
  {
    hide GroupsOf, WithoutSeed;
    var match_ := TokenizeCached(tokenCache, text);
    if match_.None? {
      return None;
    }
    var selector, groups := text, match_.value;
    if |groups| == 1 {
      var tokens := groups[0];
      assert groups == [tokens];
      if inDocument && LeadsWithId(tokens) {
        LeadingTokenCut(selector, tokens);
        selector := selector[|tokens[0].value|..];
        tokens := tokens[1..];
      }
      selector, tokens := TakeSeed(selector, tokens, needsContext, found);
      groups := [tokens];
      if selector == "" {
        return Some(groups);
      }
    }
    groups := CompileCached(compilerCache, selector, groups);
    result := Some(groups);
  }
}
