/** The environment the launcher hands to Claude: updating a list of `key=value` entries. */
module Environment {
  import opened Wrappers
  import opened Seqs
  import opened Texts
  import opened Identity

  function KeyOf(entry: string): string {
    Before(entry, '=')
  }

  function Entry(k: string, v: string): string {
    k + "=" + v
  }

  /** Some entry of `env` has the key. */
  predicate Mentions(env: seq<string>, k: string) {
    env != [] && (Mentions(env[..|env| - 1], k) || KeyOf(env[|env| - 1]) == k)
  }

  /** What the entry `e` becomes after the entries `before`. */
  function Replace(before: seq<string>, e: string, updates: map<string, string>): seq<string> {
    var k := KeyOf(e);
    if k !in updates then [e]
    else if Mentions(before, k) then []
    else [Entry(k, updates[k])]
  }

  /** The existing entries: the first of each updated key gets the new value, later ones go. */
  function Replaced(base: seq<string>, updates: map<string, string>): seq<string> {
    if base == [] then []
    else
      var n := |base| - 1;
      Replaced(base[..n], updates) + Replace(base[..n], base[n], updates)
  }

  /** What the loop over the updates adds for one key. */
  function Add(base: seq<string>, updates: map<string, string>, k: string): seq<string>
    requires k in updates
  {
    if Mentions(base, k) then [] else [Entry(k, updates[k])]
  }

  /** The entries for the keys that `base` does not mention, in the order given. */
  function Added(base: seq<string>, updates: map<string, string>, order: seq<string>): seq<string>
    requires forall k <- order :: k in updates
  {
    if order == [] then []
    else
      var n := |order| - 1;
      Added(base, updates, order[..n]) + Add(base, updates, order[n])
  }

  /** `order` visits every key of the map once: Go leaves the order of a range open. */
  ghost predicate Visits(order: seq<string>, updates: map<string, string>) {
    Distinct(order) && forall k :: k in order <==> k in updates
  }

  function Updated(base: seq<string>, updates: map<string, string>, order: seq<string>): seq<string>
    requires forall k <- order :: k in updates
  {
    Replaced(base, updates) + Added(base, updates, order)
  }

  // --------------------------------------------------------------------- building blocks

  /** No update key contains '=', so an entry written for a key has that key. */
  predicate Assignable(updates: map<string, string>) {
    forall k <- updates :: '=' !in k
  }

  lemma EntryKey(k: string, v: string)
    requires '=' !in k
    ensures KeyOf(Entry(k, v)) == k
  {
    BeforeAtSeparator(k, v, '=');
  }

  lemma MentionsSnoc(env: seq<string>, e: string, k: string)
    ensures Mentions(env + [e], k) <==> Mentions(env, k) || KeyOf(e) == k
  {
    assert (env + [e])[..|env|] == env;
  }

  lemma {:induction false} MentionsAppend(a: seq<string>, b: seq<string>, k: string)
    ensures Mentions(a + b, k) <==> Mentions(a, k) || Mentions(b, k)
  {
    if b == [] {
      assert a + b == a;
    } else {
      var n := |b| - 1;
      MentionsAppend(a, b[..n], k);
      assert (a + b)[..|a| + n] == a + b[..n];
    }
  }

  lemma ReplacedSnoc(base: seq<string>, e: string, u: map<string, string>)
    ensures Replaced(base + [e], u) == Replaced(base, u) + Replace(base, e, u)
  {
    assert (base + [e])[..|base|] == base;
  }

  lemma AddedSnoc(base: seq<string>, u: map<string, string>, order: seq<string>, k: string)
    requires (forall x <- order :: x in u) && k in u
    ensures Added(base, u, order + [k]) == Added(base, u, order) + Add(base, u, k)
  {
    assert (order + [k])[..|order|] == order;
  }

  /** The piece an entry becomes has the same key, or is empty because an earlier one has. */
  lemma ReplaceKeepsKey(base: seq<string>, e: string, u: map<string, string>)
    ensures forall x <- Replace(base, e, u) :: KeyOf(x) == KeyOf(e)
    ensures Mentions(Replace(base, e, u), KeyOf(e)) || (Replace(base, e, u) == [] && Mentions(base, KeyOf(e)))
  {
    BeforeHasNoSeparator(e, '=');
    if KeyOf(e) in u { EntryKey(KeyOf(e), u[KeyOf(e)]); }
    if Replace(base, e, u) != [] { assert Replace(base, e, u)[0] in Replace(base, e, u); }
  }

  lemma {:induction false} ReplacedMentions(base: seq<string>, u: map<string, string>, k: string)
    ensures Mentions(Replaced(base, u), k) <==> Mentions(base, k)
  {
    if base != [] {
      var n := |base| - 1;
      var front, e := base[..n], base[n];
      ReplacedMentions(front, u, k);
      MentionedPiece(front, e, u, k);
      MentionsAppend(Replaced(front, u), Replace(front, e, u), k);
    }
  }

  lemma MentionedPiece(front: seq<string>, e: string, u: map<string, string>, k: string)
    ensures Mentions(front, k) || Mentions(Replace(front, e, u), k) <==> Mentions(front, k) || KeyOf(e) == k
  {
    ReplaceKeepsKey(front, e, u);
    var piece := Replace(front, e, u);
    if piece != [] {
      assert piece == [piece[0]] && piece[0] in piece && piece[..0] == [];
    }
  }

  lemma {:induction false} AddedMentions(base: seq<string>, u: map<string, string>, order: seq<string>, k: string)
    requires (forall x <- order :: x in u) && Assignable(u)
    ensures Mentions(Added(base, u, order), k) <==> k in order && !Mentions(base, k)
  {
    if order != [] {
      var n := |order| - 1;
      var front, x := order[..n], order[n];
      assert order == front + [x];
      AddedMentions(base, u, front, k);
      EntryKey(x, u[x]);
      MentionsAppend(Added(base, u, front), Add(base, u, x), k);
    }
  }

  // -------------------------------------------------------------------------- the method

  /** The updated keys written so far: the map the source calls `seen`. */
  ghost predicate Known(seen: set<string>, env: seq<string>, updates: map<string, string>) {
    forall k :: k in seen <==> k in updates && Mentions(env, k)
  }

  lemma EntryStep(base: seq<string>, updates: map<string, string>, seen: set<string>, i: nat)
    requires i < |base| && Known(seen, base[..i], updates)
    ensures Replaced(base[..i + 1], updates) == Replaced(base[..i], updates) + Replace(base[..i], base[i], updates)
    ensures Known(if KeyOf(base[i]) in updates then seen + {KeyOf(base[i])} else seen, base[..i + 1], updates)
  {
    assert base[..i + 1] == base[..i] + [base[i]];
    ReplacedSnoc(base[..i], base[i], updates);
    forall k ensures Mentions(base[..i + 1], k) <==> Mentions(base[..i], k) || KeyOf(base[i]) == k {
      MentionsSnoc(base[..i], base[i], k);
    }
  }

  lemma KeyStep(base: seq<string>, updates: map<string, string>, order: seq<string>, i: nat)
    requires i < |order| && forall k <- order :: k in updates
    ensures forall k <- order[..i] :: k in updates
    ensures Added(base, updates, order[..i + 1]) == Added(base, updates, order[..i]) + Add(base, updates, order[i])
  {
    assert order[..i + 1] == order[..i] + [order[i]];
    AddedSnoc(base, updates, order[..i], order[i]);
  }

  /** The loop over the existing entries. */
  method ReplaceExisting(base: seq<string>, updates: map<string, string>) returns (out: seq<string>, seen: set<string>)
    ensures out == Replaced(base, updates) && Known(seen, base, updates)
  {
    out, seen := [], {};
    for i := 0 to |base|
      invariant out == Replaced(base[..i], updates)
      invariant Known(seen, base[..i], updates)
    {
      EntryStep(base, updates, seen, i);
      var entry := base[i];
      var key := Before(entry, '=');
      if key in updates {
        if key !in seen {
          out := out + [key + "=" + updates[key]];
          seen := seen + {key};
        }
        continue;
      }
      out := out + [entry];
    }
    assert base[..|base|] == base;
  }

  /** The loop over the updates. */
  method AddMissing(ghost base: seq<string>, updates: map<string, string>, order: seq<string>, seen: set<string>)
    returns (more: seq<string>)
    requires Known(seen, base, updates) && forall k <- order :: k in updates
    ensures more == Added(base, updates, order)
  {
    more := [];
    for i := 0 to |order|
      invariant more == Added(base, updates, order[..i])
    {
      KeyStep(base, updates, order, i);
      var k := order[i];
      assert k in order;
      if k !in seen {
        more := more + [k + "=" + updates[k]];
      }
    }
    assert order[..|order|] == order;
  }

  method SetEnv(base: seq<string>, updates: map<string, string>, order: seq<string>) returns (out: seq<string>)
    requires Visits(order, updates)
    ensures out == Updated(base, updates, order)
  {
    var seen: set<string>;
    out, seen := ReplaceExisting(base, updates);
    var more := AddMissing(base, updates, order, seen);
    out := out + more;
  }

  // ------------------------------------------------------------------------ what changes

  /** Selects the entries of one key. */
  function HasKey(k: string): string -> bool {
    e => KeyOf(e) == k
  }

  /** One more piece, which is the entry in question unless that came before. */
  lemma OnceMore(keep: string -> bool, done: seq<string>, piece: seq<string>, hit: bool, before: bool, entry: string)
    requires Filter(keep, done) == if before then [entry] else []
    requires forall x <- piece :: keep(x) == hit
    requires hit ==> piece == if before then [] else [entry]
    ensures Filter(keep, done + piece) == if before || hit then [entry] else []
  {
    FilterPiece(keep, done, piece, hit);
  }

  lemma EntryOnce(front: seq<string>, e: string, u: map<string, string>, k: string, done: seq<string>)
    requires k in u
    requires Filter(HasKey(k), done) == if Mentions(front, k) then [Entry(k, u[k])] else []
    ensures Filter(HasKey(k), done + Replace(front, e, u)) ==
            if Mentions(front, k) || KeyOf(e) == k then [Entry(k, u[k])] else []
  {
    ReplaceKeepsKey(front, e, u);
    OnceMore(HasKey(k), done, Replace(front, e, u), KeyOf(e) == k, Mentions(front, k), Entry(k, u[k]));
  }

  lemma {:induction false} ReplacedOnce(base: seq<string>, u: map<string, string>, k: string)
    requires k in u
    ensures Filter(HasKey(k), Replaced(base, u)) == if Mentions(base, k) then [Entry(k, u[k])] else []
  {
    if base != [] {
      var n := |base| - 1;
      ReplacedOnce(base[..n], u, k);
      EntryOnce(base[..n], base[n], u, k, Replaced(base[..n], u));
    }
  }

  lemma {:induction false} AddedOnce(base: seq<string>, u: map<string, string>, order: seq<string>, k: string)
    requires (forall x <- order :: x in u) && Distinct(order) && Assignable(u)
    ensures Filter(HasKey(k), Added(base, u, order)) ==
            if k in order && !Mentions(base, k) then [Entry(k, u[k])] else []
  {
    if order != [] {
      var n := |order| - 1;
      assert order == order[..n] + [order[n]] && order[n] !in order[..n];
      AddedOnce(base, u, order[..n], k);
      AddOnce(base, u, order[n], k, Added(base, u, order[..n]));
    }
  }

  /** What adding one key contributes to the entries of a key. */
  lemma AddOnce(base: seq<string>, u: map<string, string>, x: string, k: string, done: seq<string>)
    requires x in u && '=' !in x
    ensures Filter(HasKey(k), done + Add(base, u, x)) ==
            Filter(HasKey(k), done) + if x == k && !Mentions(base, k) then [Entry(k, u[k])] else []
  {
    EntryKey(x, u[x]);
    FilterPiece(HasKey(k), done, Add(base, u, x), x == k);
  }

  /** Every updated key has one entry, with the new value. */
  predicate EachOnce(out: seq<string>, updates: map<string, string>) {
    forall k <- updates :: Filter(HasKey(k), out) == [Entry(k, updates[k])]
  }

  lemma OneEntry(base: seq<string>, u: map<string, string>, order: seq<string>, k: string)
    requires Visits(order, u) && Assignable(u) && k in u
    ensures Filter(HasKey(k), Updated(base, u, order)) == [Entry(k, u[k])]
  {
    ReplacedOnce(base, u, k);
    AddedOnce(base, u, order, k);
    FilterAppend(HasKey(k), Replaced(base, u), Added(base, u, order));
  }

  /** Each updated key ends up with exactly one entry, the new one, exactly when no update
      key contains '='. */
  lemma EachUpdatedOnce(base: seq<string>, u: map<string, string>, order: seq<string>)
    requires Visits(order, u)
    ensures EachOnce(Updated(base, u, order), u) <==> Assignable(u)
  {
    var out := Updated(base, u, order);
    if Assignable(u) {
      forall k <- u ensures Filter(HasKey(k), out) == [Entry(k, u[k])] { OneEntry(base, u, order, k); }
    } else {
      var k :| k in u && '=' in k;
      forall e | e in out ensures !HasKey(k)(e) { BeforeHasNoSeparator(e, '='); }
      FilterNone(HasKey(k), out);
      assert Filter(HasKey(k), out) == [];
    }
  }

  /** Selects the entries of all other keys. */
  function Foreign(updates: map<string, string>): string -> bool {
    e => KeyOf(e) !in updates
  }

  lemma {:induction false} ReplacedKeepsForeign(base: seq<string>, u: map<string, string>)
    ensures Filter(Foreign(u), Replaced(base, u)) == Filter(Foreign(u), base)
  {
    if base != [] {
      var n := |base| - 1;
      var front, e := base[..n], base[n];
      var keep, piece := Foreign(u), Replace(front, e, u);
      ReplacedKeepsForeign(front, u);
      ReplaceKeepsKey(front, e, u);
      FilterPiece(keep, Replaced(front, u), piece, KeyOf(e) !in u);
    }
  }

  lemma {:induction false} AddedEntries(base: seq<string>, u: map<string, string>, order: seq<string>, e: string)
    requires (forall x <- order :: x in u) && e in Added(base, u, order)
    ensures exists k <- order :: e == Entry(k, u[k])
  {
    var n := |order| - 1;
    if e in Added(base, u, order[..n]) {
      AddedEntries(base, u, order[..n], e);
    } else {
      assert order[n] in order;
    }
  }

  lemma {:induction false} AddedHolds(base: seq<string>, u: map<string, string>, order: seq<string>, k: string)
    requires (forall x <- order :: x in u) && k in order && !Mentions(base, k)
    ensures Entry(k, u[k]) in Added(base, u, order)
  {
    var n := |order| - 1;
    if k != order[n] {
      assert order == order[..n] + [order[n]];
      AddedHolds(base, u, order[..n], k);
    }
  }

  /** The entry written for an updated key is an entry of an updated key. */
  predicate HeadsUpdated(updates: map<string, string>) {
    forall k <- updates :: KeyOf(Entry(k, updates[k])) in updates
  }

  lemma AssignableHeads(updates: map<string, string>)
    requires Assignable(updates)
    ensures HeadsUpdated(updates)
  {
    forall k | k in updates ensures KeyOf(Entry(k, updates[k])) in updates { EntryKey(k, updates[k]); }
  }

  lemma HeadsAddNothing(base: seq<string>, u: map<string, string>, order: seq<string>)
    requires Visits(order, u) && HeadsUpdated(u)
    ensures Filter(Foreign(u), Added(base, u, order)) == []
  {
    var added := Added(base, u, order);
    forall e | e in added ensures !Foreign(u)(e) { AddedEntries(base, u, order, e); }
    FilterNone(Foreign(u), added);
  }

  lemma StrayAdded(base: seq<string>, u: map<string, string>, order: seq<string>, k: string)
    requires Visits(order, u) && k in u && KeyOf(Entry(k, u[k])) !in u
    ensures Filter(Foreign(u), Added(base, u, order)) != []
  {
    if Mentions(base, k) {
      MentionedHasNoEquals(base, k);
      EntryKey(k, u[k]);
    }
    AddedHolds(base, u, order, k);
    FilterMembers(Foreign(u), Added(base, u, order));
  }

  /** The entries of all other keys stay as they are, in their order, exactly when every entry
      written is one of an updated key; so they do when no update key contains '='. */
  lemma ForeignUnchanged(base: seq<string>, u: map<string, string>, order: seq<string>)
    requires Visits(order, u)
    ensures Filter(Foreign(u), Updated(base, u, order)) == Filter(Foreign(u), base) <==> HeadsUpdated(u)
    ensures Assignable(u) ==> HeadsUpdated(u)
  {
    ReplacedKeepsForeign(base, u);
    FilterAppend(Foreign(u), Replaced(base, u), Added(base, u, order));
    if Assignable(u) { AssignableHeads(u); }
    if HeadsUpdated(u) {
      HeadsAddNothing(base, u, order);
    } else {
      var k :| k in u && KeyOf(Entry(k, u[k])) !in u;
      StrayAdded(base, u, order, k);
    }
  }

  lemma {:induction false} MentionedHasNoEquals(env: seq<string>, k: string)
    requires Mentions(env, k)
    ensures '=' !in k
  {
    var n := |env| - 1;
    if Mentions(env[..n], k) { MentionedHasNoEquals(env[..n], k); } else { BeforeHasNoSeparator(env[n], '='); }
  }

  // ---------------------------------------------------------------------------- composing

  /** What became of one entry, updated again. */
  lemma EntryTwice(done: seq<string>, front: seq<string>, e: string, u: map<string, string>, w: map<string, string>)
    requires Mentions(done, KeyOf(e)) <==> Mentions(front, KeyOf(e))
    ensures Replaced(done + Replace(front, e, u), w) == Replaced(done, w) + Replace(front, e, u + w)
  {
    var piece := Replace(front, e, u);
    ReplaceKeepsKey(front, e, u);
    if piece == [] {
      assert done + piece == done;
    } else {
      assert piece == [piece[0]] && piece[0] in piece;
      ReplacedSnoc(done, piece[0], w);
    }
  }

  /** The later update wins per key, and only then does the earlier one count. */
  lemma {:induction false} ReplacedTwice(base: seq<string>, u: map<string, string>, w: map<string, string>)
    ensures Replaced(Replaced(base, u), w) == Replaced(base, u + w)
  {
    if base != [] {
      var n := |base| - 1;
      ReplacedTwice(base[..n], u, w);
      ReplacedMentions(base[..n], u, KeyOf(base[n]));
      EntryTwice(Replaced(base[..n], u), base[..n], base[n], u, w);
    }
  }

  /** An entry written for a new key is still the first for its key when updated again. */
  lemma AddThenReplace(base: seq<string>, done: seq<string>, u: map<string, string>, w: map<string, string>, k: string)
    requires k in u && '=' !in k && (Mentions(done, k) <==> Mentions(base, k))
    ensures Replaced(done + Add(base, u, k), w) == Replaced(done, w) + Add(base, u + w, k)
  {
    if Mentions(base, k) {
      assert done + [] == done;
    } else {
      var e := Entry(k, u[k]);
      EntryKey(k, u[k]);
      ReplacedSnoc(done, e, w);
    }
  }

  lemma {:induction false} ReplacedAdded(base: seq<string>, u: map<string, string>, w: map<string, string>, order: seq<string>)
    requires (forall x <- order :: x in u) && Distinct(order) && Assignable(u)
    ensures Replaced(Updated(base, u, order), w) == Updated(base, u + w, order)
  {
    if order == [] {
      ReplacedTwice(base, u, w);
      assert Replaced(base, u) + [] == Replaced(base, u);
    } else {
      var n := |order| - 1;
      var front, k := order[..n], order[n];
      ReplacedAdded(base, u, w, front);
      UpdatedMentions(base, u, front, k);
      AddThenReplace(base, Updated(base, u, front), u, w, k);
      Associative(Replaced(base, u), Added(base, u, front), Add(base, u, k));
      Associative(Replaced(base, u + w), Added(base, u + w, front), Add(base, u + w, k));
    }
  }

  lemma UpdatedMentions(base: seq<string>, u: map<string, string>, order: seq<string>, k: string)
    requires (forall x <- order :: x in u) && Assignable(u)
    ensures Mentions(Updated(base, u, order), k) <==> Mentions(base, k) || k in order
  {
    ReplacedMentions(base, u, k);
    AddedMentions(base, u, order, k);
    MentionsAppend(Replaced(base, u), Added(base, u, order), k);
  }

  /** The keys of the later update that the earlier one does not have. */
  function Fresh(u: map<string, string>, order: seq<string>): seq<string> {
    Filter(k => k !in u, order)
  }

  lemma FreshSnoc(u: map<string, string>, order: seq<string>, k: string)
    ensures Fresh(u, order + [k]) == Fresh(u, order) + if k in u then [] else [k]
  {
    FilterSnoc(k => k !in u, order, k);
  }

  lemma FreshKeys(u: map<string, string>, w: map<string, string>, ou: seq<string>, ow: seq<string>)
    requires (forall k <- ou :: k in u) && (forall k <- ow :: k in w)
    ensures forall k <- ou + Fresh(u, ow) :: k in u + w
  {
    FilterMembers(k => k !in u, ow);
  }

  /** After an update that leaves the keys of `base` and of `u`, only new keys are added. */
  lemma {:induction false} AddedAfter(base: seq<string>, done: seq<string>, u: map<string, string>, w: map<string, string>, order: seq<string>)
    requires forall k :: Mentions(done, k) <==> Mentions(base, k) || k in u
    requires forall k <- order :: k in w
    ensures forall k <- Fresh(u, order) :: k in u + w
    ensures Added(done, w, order) == Added(base, u + w, Fresh(u, order))
  {
    FreshKeys(u, w, [], order);
    if order != [] {
      var n := |order| - 1;
      var front, k := order[..n], order[n];
      assert order == front + [k];
      FreshSnoc(u, front, k);
      AddedAfter(base, done, u, w, front);
      if k !in u {
        AddedSnoc(base, u + w, Fresh(u, front), k);
        assert Add(done, w, k) == Add(base, u + w, k);
      } else {
        assert Fresh(u, order) == Fresh(u, front) && Add(done, w, k) == [];
      }
    }
  }

  lemma {:induction false} AddedAppend(base: seq<string>, u: map<string, string>, a: seq<string>, b: seq<string>)
    requires forall k <- a + b :: k in u
    ensures (forall k <- a :: k in u) && (forall k <- b :: k in u)
    ensures Added(base, u, a + b) == Added(base, u, a) + Added(base, u, b)
  {
    assert (forall k <- a :: k in a + b) && (forall k <- b :: k in a + b);
    if b == [] {
      assert a + b == a;
    } else {
      var n := |b| - 1;
      assert (a + b)[..|a| + n] == a + b[..n] && a + b == (a + b[..n]) + [b[n]];
      AddedAppend(base, u, a, b[..n]);
      Associative(Added(base, u, a), Added(base, u, b[..n]), Add(base, u, b[n]));
    }
  }

  /** Two updates in a row are one update in which the later value wins. */
  lemma UpdatesCompose(base: seq<string>, u: map<string, string>, w: map<string, string>, ou: seq<string>, ow: seq<string>)
    requires Visits(ou, u) && Visits(ow, w) && Assignable(u)
    ensures Visits(ou + Fresh(u, ow), u + w)
    ensures Updated(Updated(base, u, ou), w, ow) == Updated(base, u + w, ou + Fresh(u, ow))
  {
    var order := ou + Fresh(u, ow);
    FreshKeys(u, w, ou, ow);
    FreshVisits(u, w, ou, ow);
    ReplacedAdded(base, u, w, ou);
    forall k ensures Mentions(Updated(base, u, ou), k) <==> Mentions(base, k) || k in u {
      UpdatedMentions(base, u, ou, k);
    }
    AddedAfter(base, Updated(base, u, ou), u, w, ow);
    AddedAppend(base, u + w, ou, Fresh(u, ow));
    Associative(Replaced(base, u + w), Added(base, u + w, ou), Added(base, u + w, Fresh(u, ow)));
  }

  lemma FreshVisits(u: map<string, string>, w: map<string, string>, ou: seq<string>, ow: seq<string>)
    requires Visits(ou, u) && Visits(ow, w)
    ensures Visits(ou + Fresh(u, ow), u + w)
  {
    var isNew := k => k !in u;
    FilterMembers(isNew, ow);
    FilterDistinct(isNew, ow);
    var order := ou + Fresh(u, ow);
    forall i, j | 0 <= i < j < |order| ensures order[i] != order[j] {
      if j < |ou| {
      } else if i < |ou| {
        assert order[i] in ou && order[j] in Fresh(u, ow);
      }
    }
  }

  /** When the later update has the same keys, nothing of the earlier one is left. */
  lemma LaterUpdateReplaces(base: seq<string>, u: map<string, string>, w: map<string, string>, order: seq<string>, again: seq<string>)
    requires Visits(order, u) && Visits(again, w) && Assignable(u) && u.Keys == w.Keys
    ensures Visits(order, w)
    ensures Updated(Updated(base, u, order), w, again) == Updated(base, w, order)
  {
    UpdatesCompose(base, u, w, order, again);
    FilterNone(k => k !in u, again);
    assert u + w == w && order + [] == order;
  }

  /** Doing the same update again changes nothing, whatever order it visits the keys in. */
  lemma UpdateIdempotent(base: seq<string>, u: map<string, string>, order: seq<string>, again: seq<string>)
    requires Visits(order, u) && Visits(again, u) && Assignable(u)
    ensures Updated(Updated(base, u, order), u, again) == Updated(base, u, order)
  {
    LaterUpdateReplaces(base, u, u, order, again);
  }

  lemma AddedMiddle(base: seq<string>, u: map<string, string>, c: seq<string>, x: string, e: seq<string>)
    requires (forall k <- c :: k in u) && x in u && (forall k <- e :: k in u)
    ensures multiset(Added(base, u, c + [x] + e)) == multiset(Added(base, u, c + e)) + multiset(Add(base, u, x))
  {
    AddedAppend(base, u, c, e);
    AddedAppend(base, u, c + [x], e);
    AddedSnoc(base, u, c, x);
  }

  lemma {:induction false} AddedPermutes(base: seq<string>, u: map<string, string>, a: seq<string>, b: seq<string>)
    requires (forall k <- a :: k in u) && (forall k <- b :: k in u) && multiset(a) == multiset(b)
    ensures multiset(Added(base, u, a)) == multiset(Added(base, u, b))
  {
    if a == [] {
      assert |multiset(b)| == 0;
      assert b == [];
    } else {
      var c, x, e := RemoveOne(a, b);
      assert (forall k <- c :: k in b) && (forall k <- e :: k in b);
      AddedPermutes(base, u, a[..|a| - 1], c + e);
      AddedMiddle(base, u, c, x, e);
    }
  }

  /** Iteration orders differ only in the order of the entries added at the end. */
  lemma OrderMattersOnlyAtTheEnd(base: seq<string>, u: map<string, string>, a: seq<string>, b: seq<string>)
    requires Visits(a, u) && Visits(b, u)
    ensures var n, x, y := |Replaced(base, u)|, Updated(base, u, a), Updated(base, u, b);
            x[..n] == y[..n] && multiset(x[n..]) == multiset(y[n..])
  {
    SameKeysSameBag(a, b);
    AddedPermutes(base, u, a, b);
    var n := |Replaced(base, u)|;
    assert Updated(base, u, a)[n..] == Added(base, u, a) && Updated(base, u, b)[n..] == Added(base, u, b);
  }

  lemma {:induction false} DistinctBag<T>(s: seq<T>)
    requires Distinct(s)
    ensures forall x :: multiset(s)[x] == if x in s then 1 else 0
  {
    if s != [] {
      var n := |s| - 1;
      assert s == s[..n] + [s[n]];
      DistinctBag(s[..n]);
    }
  }

  lemma SameKeysSameBag(a: seq<string>, b: seq<string>)
    requires Distinct(a) && Distinct(b) && forall k :: k in a <==> k in b
    ensures multiset(a) == multiset(b)
  {
    DistinctBag(a);
    DistinctBag(b);
    forall k ensures multiset(a)[k] == multiset(b)[k] { }
  }

  // -------------------------------------------------------------------------- launching

  const ATTRIBUTES := "OTEL_RESOURCE_ATTRIBUTES"

  /** The value of the first setting of `k`, as os.Getenv finds it. */
  function Setting(env: seq<string>, k: string): Option<string> {
    if env == [] then None
    else
      var n := |env| - 1;
      var earlier := Setting(env[..n], k);
      if earlier.Some? then earlier
      else if HasPrefix(env[n], k + "=") then Some(env[n][|k| + 1..])
      else None
  }

  function Getenv(env: seq<string>, k: string): string {
    if Setting(env, k).Some? then Setting(env, k).value else ""
  }

  lemma SettingHasKey(e: string, k: string)
    requires '=' !in k
    ensures HasPrefix(e, k + "=") ==> HasKey(k)(e)
    ensures forall v :: e == Entry(k, v) ==> HasPrefix(e, k + "=") && e[|k| + 1..] == v
  {
    if HasPrefix(e, k + "=") {
      assert e == k + "=" + e[|k| + 1..];
      BeforeAtSeparator(k, e[|k| + 1..], '=');
    }
    forall v | e == Entry(k, v) ensures HasPrefix(e, k + "=") && e[|k| + 1..] == v { }
  }

  lemma {:induction false} NoSetting(env: seq<string>, k: string)
    requires '=' !in k && Filter(HasKey(k), env) == []
    ensures Setting(env, k) == None
  {
    if env != [] {
      var n := |env| - 1;
      SettingHasKey(env[n], k);
      NoSetting(env[..n], k);
    }
  }

  /** A key with one entry has the value of that entry. */
  lemma {:induction false} OneSetting(env: seq<string>, k: string, v: string)
    requires '=' !in k && Filter(HasKey(k), env) == [Entry(k, v)]
    ensures Setting(env, k) == Some(v)
  {
    var n := |env| - 1;
    var front := env[..n];
    SettingHasKey(env[n], k);
    if HasKey(k)(env[n]) {
      var earlier := Filter(HasKey(k), front);
      assert [Entry(k, v)] == earlier + [env[n]];
      assert [Entry(k, v)][|earlier|] == env[n];
      NoSetting(front, k);
    } else {
      OneSetting(front, k, v);
    }
  }

  function ExporterUpdates(endpoint: string, token: string): map<string, string> {
    map["CLAUDE_CODE_ENABLE_TELEMETRY" := "1",
        "OTEL_LOGS_EXPORTER" := "otlp",
        "OTEL_METRICS_EXPORTER" := "none",
        "OTEL_EXPORTER_OTLP_LOGS_PROTOCOL" := "http/json",
        "OTEL_EXPORTER_OTLP_LOGS_ENDPOINT" := endpoint + "/v1/logs",
        "OTEL_EXPORTER_OTLP_LOGS_HEADERS" := "Authorization=Bearer " + token]
  }

  function PrivacyUpdates(): map<string, string> {
    map["OTEL_LOG_USER_PROMPTS" := "0",
        "OTEL_LOG_ASSISTANT_RESPONSES" := "0",
        "OTEL_LOG_TOOL_DETAILS" := "0",
        "OTEL_LOG_RAW_API_BODIES" := "0"]
  }

  /** The entries launch sets besides the attributes. */
  function FixedUpdates(endpoint: string, token: string): map<string, string> {
    ExporterUpdates(endpoint, token) + PrivacyUpdates()
  }

  /** The keys of launch meet the condition under which setEnv keeps its promises. */
  lemma LaunchKeysAssignable(endpoint: string, token: string)
    ensures Assignable(FixedUpdates(endpoint, token))
  {
    ExporterKeysAssignable(endpoint, token);
    PrivacyKeysAssignable();
  }

  lemma ExporterKeysAssignable(endpoint: string, token: string)
    ensures Assignable(ExporterUpdates(endpoint, token))
  {
  }

  lemma PrivacyKeysAssignable()
    ensures Assignable(PrivacyUpdates())
  {
  }

  datatype Launcher = Launcher(id: Identity, endpoint: string, token: string)

  /** What launch sets in `env`: the fixed entries, and its identity merged into the
      attributes already there. */
  function LaunchUpdates(l: Launcher, env: seq<string>): map<string, string> {
    FixedUpdates(l.endpoint, l.token)[ATTRIBUTES := Attributes(l.id, Getenv(env, ATTRIBUTES))]
  }

  lemma LaunchUpdatesShape(l: Launcher, m: Launcher, env: seq<string>, other: seq<string>)
    ensures Assignable(LaunchUpdates(l, env)) && ATTRIBUTES in LaunchUpdates(l, env)
    ensures LaunchUpdates(l, env).Keys == LaunchUpdates(m, other).Keys
    ensures Getenv(env, ATTRIBUTES) == Getenv(other, ATTRIBUTES) ==> LaunchUpdates(l, env) == LaunchUpdates(l, other)
  {
    LaunchKeysAssignable(l.endpoint, l.token);
    assert '=' !in ATTRIBUTES;
    assert FixedUpdates(l.endpoint, l.token).Keys == FixedUpdates(m.endpoint, m.token).Keys;
  }

  /** The attributes an inner launch computes do not depend on the outer one. */
  lemma NestedAttributes(env: seq<string>, outer: Launcher, inner: Launcher, order: seq<string>)
    requires Visits(order, LaunchUpdates(outer, env))
    ensures var between := Updated(env, LaunchUpdates(outer, env), order);
            LaunchUpdates(inner, between) == LaunchUpdates(inner, env)
  {
    var u := LaunchUpdates(outer, env);
    var between := Updated(env, u, order);
    LaunchUpdatesShape(outer, inner, env, env);
    OneEntry(env, u, order, ATTRIBUTES);
    OneSetting(between, ATTRIBUTES, u[ATTRIBUTES]);
    NestedLaunch(inner.id, outer.id, Getenv(env, ATTRIBUTES));
  }

  /** The inner of two nested launches hands over exactly the environment it would have
      handed over on its own: no trace of the outer identity, endpoint or token remains. */
  lemma NestedEnvironment(env: seq<string>, outer: Launcher, inner: Launcher, order: seq<string>, again: seq<string>)
    requires Visits(order, LaunchUpdates(outer, env))
    requires Visits(again, LaunchUpdates(inner, Updated(env, LaunchUpdates(outer, env), order)))
    ensures Visits(order, LaunchUpdates(inner, env))
    ensures var between := Updated(env, LaunchUpdates(outer, env), order);
            Updated(between, LaunchUpdates(inner, between), again) == Updated(env, LaunchUpdates(inner, env), order)
  {
    NestedAttributes(env, outer, inner, order);
    LaunchUpdatesShape(outer, inner, env, env);
    LaterUpdateReplaces(env, LaunchUpdates(outer, env), LaunchUpdates(inner, env), order, again);
  }

  // ------------------------------------------------------------------ what Claude finds

  lemma {:induction false} SettingOfKeyed(env: seq<string>, k: string)
    requires '=' !in k
    ensures Setting(Filter(HasKey(k), env), k) == Setting(env, k)
  {
    if env != [] {
      var n := |env| - 1;
      var front, e := Filter(HasKey(k), env[..n]), env[n];
      SettingOfKeyed(env[..n], k);
      SettingHasKey(e, k);
      if HasKey(k)(e) { assert (front + [e])[..|front|] == front; } else { assert front + [] == front; }
    }
  }

  /** After an update every updated key is found with its new value, and every other key as it
      was before. */
  lemma UpdatesAreFound(base: seq<string>, u: map<string, string>, order: seq<string>, k: string)
    requires Visits(order, u) && Assignable(u) && '=' !in k
    ensures Setting(Updated(base, u, order), k) == if k in u then Some(u[k]) else Setting(base, k)
  {
    if k in u {
      OneEntry(base, u, order, k);
      OneSetting(Updated(base, u, order), k, u[k]);
    } else {
      ForeignUnchanged(base, u, order);
      FilterWithin(HasKey(k), Foreign(u), Updated(base, u, order));
      FilterWithin(HasKey(k), Foreign(u), base);
      SettingOfKeyed(Updated(base, u, order), k);
      SettingOfKeyed(base, k);
    }
  }

  /** The settings of launch, by name. */
  lemma ExporterSettings(endpoint: string, token: string)
    ensures var u := FixedUpdates(endpoint, token);
            && "OTEL_EXPORTER_OTLP_LOGS_ENDPOINT" in u && u["OTEL_EXPORTER_OTLP_LOGS_ENDPOINT"] == endpoint + "/v1/logs"
            && "OTEL_EXPORTER_OTLP_LOGS_HEADERS" in u && u["OTEL_EXPORTER_OTLP_LOGS_HEADERS"] == "Authorization=Bearer " + token
            && "OTEL_LOGS_EXPORTER" in u && u["OTEL_LOGS_EXPORTER"] == "otlp"
            && "OTEL_LOG_USER_PROMPTS" in u && u["OTEL_LOG_USER_PROMPTS"] == "0"
    ensures ATTRIBUTES == "OTEL_RESOURCE_ATTRIBUTES" && ATTRIBUTES !in FixedUpdates(endpoint, token)
  {
  }

  /** Claude finds every setting of the launcher, and its identity in the resource attributes. */
  lemma LaunchIsFound(l: Launcher, env: seq<string>, order: seq<string>)
    requires Visits(order, LaunchUpdates(l, env))
    requires IsBytes(l.id.person) && IsBytes(l.id.device) && IsBytes(l.id.nodeId) && IsBytes(l.id.sourceIp)
    ensures var out, fixed := Updated(env, LaunchUpdates(l, env), order), FixedUpdates(l.endpoint, l.token);
            && (forall k <- fixed :: Getenv(out, k) == fixed[k])
            && ReadKey(Getenv(out, ATTRIBUTES), "meter.person") == [Unescape(l.id.person)]
            && ReadKey(Getenv(out, ATTRIBUTES), "meter.device") == [Unescape(l.id.device)]
  {
    var u, fixed := LaunchUpdates(l, env), FixedUpdates(l.endpoint, l.token);
    LaunchUpdatesShape(l, l, env, env);
    forall k | k in fixed ensures Getenv(Updated(env, u, order), k) == fixed[k] {
      ExporterSettings(l.endpoint, l.token);
      UpdatesAreFound(env, u, order, k);
    }
    UpdatesAreFound(env, u, order, ATTRIBUTES);
    IdentityIsFound(l.id, Getenv(env, ATTRIBUTES));
  }
}
