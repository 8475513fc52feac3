/** The T9 prefix engine: a mutable trie with one node per prefix of an inserted word. */
module T9Prefix {
  import opened Wrappers
  import opened KeyboardLayout

  class TrieNode {
    var children: map<char, TrieNode>
    var isWord: bool
    var wordValue: string
    ghost const path: string   // the characters on the way from the root

    constructor (ghost path: string)
      ensures this.path == path && children == map[] && !isWord
    {
      children, isWord, wordValue := map[], false, "";
      this.path := path;
    }
  }

  /** The trie's nodes, each under the string that leads to it from the root. */
  type Paths = map<string, TrieNode>

  ghost predicate PrefixClosed(paths: Paths) {
    forall p | p in paths :: p == "" || p[..|p| - 1] in paths
  }

  ghost predicate Named(paths: Paths) {
    forall p | p in paths :: paths[p].path == p
  }

  /** The children of a node are exactly the nodes one character further. */
  ghost predicate Branching(paths: Paths, p: string, children: map<char, TrieNode>) {
    && (forall c :: c in children <==> p + [c] in paths)
    && (forall c | c in children :: children[c] == paths[p + [c]])
  }

  ghost predicate BranchesAt(paths: Paths, p: string)
    requires p in paths
    reads paths[p]
  {
    Branching(paths, p, paths[p].children)
  }

  /** A node is marked exactly when its path is an inserted word, and then it carries that word. */
  ghost predicate MarkedAt(paths: Paths, words: set<string>, p: string)
    requires p in paths
    reads paths[p]
  {
    && (paths[p].isWord <==> p in words)
    && (paths[p].isWord ==> paths[p].wordValue == p)
  }

  /** Some inserted word begins with p. */
  ghost predicate Begins(words: set<string>, p: string) {
    exists w :: w in words && p <= w
  }

  /** Every node below the root, except perhaps the prefixes of `open`, leads to a word. */
  ghost predicate NoDeadEnds(paths: Paths, words: set<string>, open: string) {
    forall p | p in paths && p != "" && !(p <= open) :: Begins(words, p)
  }

  lemma {:induction false} PrefixesPresent(paths: Paths, p: string, i: nat)
    requires PrefixClosed(paths) && p in paths && i <= |p|
    ensures p[..i] in paths
    decreases |p| - i
  {
    if i < |p| {
      PrefixesPresent(paths, p, i + 1);
      assert p[..i + 1][..i] == p[..i];
    } else {
      assert p[..i] == p;
    }
  }

  /** A string has one parent. */
  lemma OnlyParent(here: string, c: char, p: string)
    ensures forall d :: p + [d] == here + [c] <==> p == here && d == c
  {
    forall d | p + [d] == here + [c] ensures p == here && d == c {
      assert (p + [d])[..|p|] == p && (here + [c])[..|here|] == here;
      assert (p + [d])[|p|] == d;
    }
  }

  /** Where a child is missing, nothing lies below it either. */
  lemma LeafIsNew(paths: Paths, here: string, c: char, node: TrieNode)
    requires PrefixClosed(paths) && here in paths && here + [c] !in paths
    ensures PrefixClosed(paths[here + [c] := node])
    ensures Branching(paths[here + [c] := node], here + [c], map[])
  {
    var leaf := here + [c];
    assert leaf[..|leaf| - 1] == here;
    forall d ensures leaf + [d] !in paths && leaf + [d] != leaf {
      assert (leaf + [d])[..|leaf + [d]| - 1] == leaf;
    }
  }

  /** A new leaf is a new child of its parent and of nobody else. */
  lemma BranchingGrown(paths: Paths, here: string, c: char, node: TrieNode, p: string, children: map<char, TrieNode>)
    requires here + [c] !in paths && Branching(paths, p, children)
    ensures Branching(paths[here + [c] := node], p, if p == here then children[c := node] else children)
  {
    OnlyParent(here, c, p);
  }

  class T9PrefixEngine {
    const root: TrieNode
    var translitEn: Table
    var translitRu: Table
    ghost var paths: Paths
    ghost var words: set<string>   // the inserted words

    ghost predicate Branches()
      reads this`paths, paths.Values
    {
      forall p {:trigger BranchesAt(paths, p)} | p in paths :: BranchesAt(paths, p)
    }

    ghost predicate Marked()
      reads this`paths, this`words, paths.Values
    {
      forall p {:trigger MarkedAt(paths, words, p)} | p in paths :: MarkedAt(paths, words, p)
    }

    /** One node per path, every inserted word among the paths. */
    ghost predicate Shaped()
      reads this`paths, this`words, paths.Values
    {
      && "" in paths && paths[""] == root
      && PrefixClosed(paths) && Named(paths)
      && Branches() && Marked()
      && words <= paths.Keys
    }

    /** The trie is well formed, except that the prefixes of `open` may still lack a word. */
    ghost predicate WellFormed(open: string)
      reads this`paths, this`words, paths.Values
    {
      Shaped() && NoDeadEnds(paths, words, open)
    }

    ghost predicate Valid()
      reads this, paths.Values
    {
      WellFormed("") && Inverse(translitEn, translitRu)
    }

    constructor ()
      ensures Valid() && words == {}
      ensures translitEn == EnTable() && translitRu == RuTable()
    {
      hide EnTable, RuTable;
      root := new TrieNode("");
      translitEn, translitRu := map[], map[];
      paths, words := map["" := root], {};
      new;
      assert forall p: string, c: char :: |p + [c]| > 0;
      BuiltTablesInverse();
      BootstrapLayoutMappers();
    }

    method BootstrapLayoutMappers()
      requires translitEn == map[] && translitRu == map[]
      modifies this`translitEn, this`translitRu
      ensures translitEn == EnTable() && translitRu == RuTable()
    {
      TablesDistinct();
      FillTables(EN, RU);
    }

    method FillTables(en: string, ru: string)
      requires translitEn == map[] && translitRu == map[] && |en| == |ru|
      modifies this`translitEn, this`translitRu
      ensures translitEn == Pairs(en, ru, |en|) && translitRu == Pairs(ru, en, |en|)
    {
      var i := 0;
      while i < |en| && i < |ru|
        invariant i <= |en| && translitEn == Pairs(en, ru, i) && translitRu == Pairs(ru, en, i)
      {
        translitEn := translitEn[en[i] := ru[i]];
        translitRu := translitRu[ru[i] := en[i]];
        i := i + 1;
      }
    }

    method NormalizeLayout(input: string) returns (output: string)
      ensures output == Normalize(translitEn, translitRu, input)
    {
      output := [];
      for i := 0 to |input|
        invariant |output| == i
        invariant forall j | 0 <= j < i :: output[j] == Repair(translitEn, translitRu, input[j])
      {
        var c := input[i];
        if c in translitEn {
          output := output + [translitEn[c]];
        } else if c in translitRu {
          output := output + [translitRu[c]];
        } else {
          output := output + [c];
        }
      }
    }

    method Insert(word: string)
      requires Valid()
      modifies this`paths, this`words, paths.Values
      ensures Valid() && words == old(words) + {word}
      ensures fresh(paths.Values - old(paths.Values))
    {
      var node := Walk(word);
      MarkWord(node, word);
    }

    /** The loop of Insert: the node of the word, with every node on the way. */
    method Walk(word: string) returns (current: TrieNode)
      requires WellFormed("")
      modifies this`paths, paths.Values
      ensures WellFormed(word) && word in paths && current == paths[word]
      ensures current in old(paths.Values) || fresh(current)
      ensures fresh(paths.Values - old(paths.Values))
    {
      hide Branches, Marked, PrefixClosed, Named;
      assert word[..0] == "";
      current := root;
      for i := 0 to |word|
        invariant WellFormed(word) && words == old(words)
        invariant word[..i] in paths && current == paths[word[..i]]
        invariant fresh(paths.Values - old(paths.Values))
      {
        assert current in paths.Values;
        current := Descend(current, word, i);
      }
      assert word[..|word|] == word;
      assert current in paths.Values;
    }

    /** Goes to the child for the i-th character, making it first if it does not exist. */
    method Descend(current: TrieNode, word: string, i: nat) returns (next: TrieNode)
      requires WellFormed(word) && i < |word|
      requires word[..i] in paths && current == paths[word[..i]]
      modifies this`paths, current
      ensures WellFormed(word)
      ensures word[..i + 1] in paths && next == paths[word[..i + 1]]
      ensures fresh(paths.Values - old(paths.Values))
    {
      hide Marked, PrefixClosed, Named;
      ghost var here := word[..i];
      var c := word[i];
      assert word[..i + 1] == here + [c];
      assert BranchesAt(paths, here);
      if c !in current.children {
        next := new TrieNode(here + [c]);
        Grow(current, here, c, next);
      } else {
        next := current.children[c];
      }
    }

    /** Hangs a fresh leaf under a node. */
    method Grow(current: TrieNode, ghost here: string, c: char, node: TrieNode)
      requires "" in paths && PrefixClosed(paths) && Named(paths) && Branches() && Marked() && words <= paths.Keys
      requires here in paths && current == paths[here] && c !in current.children
      requires node.path == here + [c] && node.children == map[] && !node.isWord
      modifies this`paths, current`children
      ensures here + [c] !in old(paths) && paths == old(paths)[here + [c] := node]
      ensures PrefixClosed(paths) && Named(paths) && Branches() && Marked()
    {
      assert BranchesAt(paths, here) && current.path == here;
      hide PrefixClosed, Branching;
      ghost var leaf := here + [c];
      LeafIsNew(paths, here, c, node);
      ghost var before := paths;
      current.children := current.children[c := node];
      paths := paths[leaf := node];
      forall p | p in paths ensures BranchesAt(paths, p) {
        if p != leaf {
          assert old(BranchesAt(paths, p));
          BranchingGrown(before, here, c, node, p, old(paths[p].children));
        }
      }
      forall p | p in paths ensures MarkedAt(paths, words, p) {
        if p != leaf { assert old(MarkedAt(paths, words, p)); }
      }
    }

    method MarkWord(current: TrieNode, word: string)
      requires WellFormed(word) && word in paths && current == paths[word]
      modifies this`words, current`isWord, current`wordValue
      ensures WellFormed("") && words == old(words) + {word}
    {
      current.isWord := true;
      current.wordValue := word;
      words := words + {word};
      forall p | p in paths ensures BranchesAt(paths, p) {
        assert old(BranchesAt(paths, p));
      }
      forall p | p in paths ensures MarkedAt(paths, words, p) {
        assert old(MarkedAt(paths, words, p));
      }
      forall p | p in paths && p != "" ensures Begins(words, p) {
        if p <= word {
          assert word in words;
        } else {
          var w :| w in old(words) && p <= w;
          assert w in words;
        }
      }
    }

    /** The beginnings of inserted words all have nodes. */
    lemma BeginningsPresent(p: string)
      requires Shaped()
      ensures Begins(words, p) ==> p in paths
    {
      hide Branches, Marked, Named;
      if Begins(words, p) {
        var w :| w in words && p <= w;
        PrefixesPresent(paths, w, |p|);
        assert w[..|p|] == p;
      }
    }

    /** A node that begins words without being one has a child that begins words. */
    lemma WordBelow(p: string) returns (c: char)
      requires Shaped() && Begins(words, p) && p !in words
      ensures p + [c] in paths && Begins(words, p + [c])
    {
      hide Branches, Marked, Named, PrefixClosed;
      var w :| w in words && p <= w;
      assert w != p;
      c := w[|p|];
      assert p + [c] <= w;
      BeginningsPresent(p + [c]);
    }

    /**
     Every node below the root has a marked node at or below it, and the children lead there: the node
     of a word w, reached by following the characters of w one by one.
     */
    lemma NoDescentFails(p: string) returns (w: string)
      requires WellFormed("") && p in paths && p != ""
      ensures p <= w && w in paths && paths[w].isWord && paths[w].wordValue == w
      ensures forall i | |p| <= i < |w| :: LeadsOn(w, i)
    {
      assert Begins(words, p);
      w :| w in words && p <= w;
      assert MarkedAt(paths, words, w);
      hide NoDeadEnds, Branches, Marked, PrefixClosed, Named, LeadsOn;
      forall i | |p| <= i < |w| ensures LeadsOn(w, i) {
        PathLeadsOn(w, i);
      }
    }

    lemma PathLeadsOn(w: string, i: nat)
      requires Shaped() && w in paths && i < |w|
      ensures LeadsOn(w, i)
    {
      PrefixesPresent(paths, w, i);
      PrefixesPresent(paths, w, i + 1);
      assert BranchesAt(paths, w[..i]) && w[..i + 1] == w[..i] + [w[i]];
    }

    /** The node of the first i characters has a child for the next one, the node of i + 1 characters. */
    ghost predicate LeadsOn(w: string, i: nat)
      requires i < |w|
      reads this`paths, paths.Values
    {
      && w[..i] in paths && w[..i + 1] in paths
      && w[i] in paths[w[..i]].children && paths[w[..i]].children[w[i]] == paths[w[..i + 1]]
    }

    /** Whatever begins with a longer string begins with the shorter one too. */
    lemma ShorterBegins(p: string, q: string)
      requires p <= q && Begins(words, q)
      ensures Begins(words, p)
    {
      var w :| w in words && q <= w;
      assert p <= w;
    }

    /**
     The descent to a word below a node, trying the children in any order. `visits` counts the nodes
     it looks at: in a trie without dead ends it looks at one node for each further character of the
     word it returns, so it never backtracks.
     */
    method FindFirstWordTail(node: TrieNode, ghost p: string) returns (found: Option<string>, ghost visits: nat)
      requires Shaped() && p in paths && node == paths[p]
      ensures found.Some? <==> Begins(words, p)
      ensures found.Some? ==> found.value in words && p <= found.value
      ensures NoDeadEnds(paths, words, "") ==> visits == if found.Some? then |found.value| - |p| + 1 else 1
      decreases Below(p)
    {
      assert BranchesAt(paths, p) && MarkedAt(paths, words, p);
      hide Branches, Marked, PrefixClosed, Named, Below;
      visits := 1;
      if node.isWord {
        return Some(node.wordValue), visits;
      }
      var rest := node.children.Keys;
      while rest != {}
        invariant rest <= node.children.Keys
        invariant forall c | c in node.children.Keys - rest :: !Begins(words, p + [c])
        invariant NoDeadEnds(paths, words, "") ==> rest == node.children.Keys && visits == 1
        decreases rest
      {
        var c :| c in rest;
        Narrower(p, c);
        ghost var more;
        found, more := FindFirstWordTail(node.children[c], p + [c]);
        visits := visits + more;
        if found.Some? {
          ShorterBegins(p, p + [c]);
          return found, visits;
        }
        rest := rest - {c};
      }
      if Begins(words, p) {
        var c := WordBelow(p);
      }
      return None, visits;
    }

    ghost function Below(p: string): set<string>
      reads this`paths
    {
      set q | q in paths && p <= q
    }

    /** Fewer paths begin with the longer string. */
    lemma Narrower(p: string, c: char)
      requires p in paths
      ensures Below(p + [c]) < Below(p)
    {
      forall q | q in Below(p + [c]) ensures q in Below(p) {
        assert p <= p + [c] <= q;
      }
      assert p in Below(p) && p !in Below(p + [c]);
    }

    /** Finds an inserted word that begins with the prefix, if there is one. */
    method SearchTree(prefix: string) returns (found: Option<string>)
      requires Shaped()
      ensures found.Some? <==> Begins(words, prefix)
      ensures found.Some? ==> found.value in words && prefix <= found.value
    {
      var current := root;
      for i := 0 to |prefix|
        invariant prefix[..i] in paths && current == paths[prefix[..i]]
      {
        assert BranchesAt(paths, prefix[..i]);
        assert prefix[..i + 1] == prefix[..i] + [prefix[i]];
        if prefix[i] !in current.children {
          BeginningsPresent(prefix[..i + 1]);
          if Begins(words, prefix) { ShorterBegins(prefix[..i + 1], prefix); }
          return None;
        }
        current := current.children[prefix[i]];
      }
      assert prefix[..|prefix|] == prefix;
      ghost var visits;
      found, visits := FindFirstWordTail(current, prefix);
    }

    /**
     The lookup with layout repair: it answers whenever the prefix or its repaired form begins an
     inserted word, and prefers the prefix as typed.
     */
    method Search(prefix: string) returns (found: Option<string>)
      requires Valid()
      ensures var repaired := Normalize(translitEn, translitRu, prefix);
              && (found.Some? <==> Begins(words, prefix) || Begins(words, repaired))
              && (found.Some? ==> found.value in words)
              && (Begins(words, prefix) ==> prefix <= found.value)
              && (found.Some? && !Begins(words, prefix) ==> repaired <= found.value)
    {
      found := SearchTree(prefix);
      if found.Some? {
        return;
      }
      var transliterated := NormalizeLayout(prefix);
      found := SearchTree(transliterated);
    }

    /** A prefix of an inserted word is found as typed and also when typed in the other layout. */
    method SearchBothLayouts(prefix: string) returns (typed: Option<string>, mistyped: Option<string>)
      requires Valid() && Begins(words, prefix)
      ensures typed.Some? && typed.value in words && prefix <= typed.value
      ensures mistyped.Some? && mistyped.value in words
    {
      typed := Search(prefix);
      var other := NormalizeLayout(prefix);
      NormalizeIsInvolution(translitEn, translitRu, prefix);
      mistyped := Search(other);
    }
  }
}
