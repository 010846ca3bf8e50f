/** Building blocks over records (`map<string, string>`) that do not depend on
    what the rules look at: the map of masks over the fields a selector picks,
    and the count of entries a per-field tagger appends when one tag is
    appended at most once. */
module RecordMaps {

  datatype Option<T> = None | Some(value: T)

  /** Moving one field from the fields still to visit to the visited ones
      keeps the two apart and together equal to all of them. */
  lemma VisitStep(all: set<string>, todo: set<string>, done: set<string>, f: string)
    requires done == all - todo && todo <= all && f in todo
    ensures done + {f} == all - (todo - {f}) && todo - {f} <= all && f !in done
  {
  }

  /** `mask(f, data[f])` for every field `f` among `keys` that `sel` picks. */
  function Masks(data: map<string, string>, keys: set<string>,
                 sel: (string, string) -> bool, mask: (string, string) -> string): map<string, string>
  {
    map f | f in keys && f in data && sel(f, data[f]) :: mask(f, data[f])
  }

  lemma MasksAt(data: map<string, string>, keys: set<string>,
                sel: (string, string) -> bool, mask: (string, string) -> string, f: string)
    ensures f in Masks(data, keys, sel, mask) <==> f in keys && f in data && sel(f, data[f])
    ensures f in Masks(data, keys, sel, mask) ==> Masks(data, keys, sel, mask)[f] == mask(f, data[f])
  {
  }

  /** Visiting one more field adds its mask exactly when it is picked. */
  lemma MasksStep(data: map<string, string>, keys: set<string>, f: string,
                  sel: (string, string) -> bool, mask: (string, string) -> string)
    requires f in data && f !in keys
    ensures Masks(data, keys + {f}, sel, mask) ==
              if sel(f, data[f]) then Masks(data, keys, sel, mask)[f := mask(f, data[f])]
              else Masks(data, keys, sel, mask)
  {
  }

  /** Visiting one more field on top of fixed masks `base` adds its mask
      exactly when it is picked and `base` has none for it. */
  lemma MasksOverStep(data: map<string, string>, keys: set<string>, f: string,
                      sel: (string, string) -> bool, mask: (string, string) -> string,
                      base: map<string, string>)
    requires f in data && f !in keys
    ensures Masks(data, keys + {f}, sel, mask) + base ==
              if sel(f, data[f]) && f !in Masks(data, keys, sel, mask) + base
              then (Masks(data, keys, sel, mask) + base)[f := mask(f, data[f])]
              else Masks(data, keys, sel, mask) + base
  {
    MasksStep(data, keys, f, sel, mask);
  }

  /** Before any field is visited only `base` is there. */
  lemma MasksNone(data: map<string, string>, sel: (string, string) -> bool,
                  mask: (string, string) -> string, base: map<string, string>)
    ensures Masks(data, {}, sel, mask) == map[]
    ensures Masks(data, {}, sel, mask) + base == base
  {
    assert Masks(data, {}, sel, mask) == map[];
  }

  /** `sel` picks some field among `keys`. */
  predicate AnyPicked(data: map<string, string>, keys: set<string>, sel: (string, string) -> bool) {
    exists f :: f in keys && f in data && sel(f, data[f])
  }

  lemma AnyPickedStep(data: map<string, string>, keys: set<string>, f: string, sel: (string, string) -> bool)
    requires f in data && f !in keys
    ensures AnyPicked(data, keys + {f}, sel) <==> AnyPicked(data, keys, sel) || sel(f, data[f])
  {
    if AnyPicked(data, keys + {f}, sel) && !sel(f, data[f]) {
      var g :| g in keys + {f} && g in data && sel(g, data[g]);
      assert g in keys;
    }
  }

  /** The fields among `keys` whose tag is present and differs from `once`. */
  function OwnEntryFields(data: map<string, string>, keys: set<string>,
                          tag: (string, string) -> Option<string>, once: string): set<string>
  {
    set f | f in keys && f in data && tag(f, data[f]).Some? && tag(f, data[f]).value != once
  }

  /** Some field among `keys` has the tag `once`. */
  predicate OnceAmong(data: map<string, string>, keys: set<string>,
                      tag: (string, string) -> Option<string>, once: string)
  {
    exists f :: f in keys && f in data && tag(f, data[f]) == Some(once)
  }

  /** How many entries a list holds after one entry per tagged field among
      `keys` has been appended, the tag `once` only if not already there. */
  function EntryCount(data: map<string, string>, keys: set<string>,
                      tag: (string, string) -> Option<string>, once: string): nat
  {
    |OwnEntryFields(data, keys, tag, once)| + if OnceAmong(data, keys, tag, once) then 1 else 0
  }

  /** `entries` agrees with EntryCount as to its length and whether it holds `once`. */
  ghost predicate EntriesOf(data: map<string, string>, keys: set<string>,
                            tag: (string, string) -> Option<string>, once: string, entries: seq<string>)
  {
    && |entries| == EntryCount(data, keys, tag, once)
    && (once in entries <==> OnceAmong(data, keys, tag, once))
  }

  /** Visiting one more field appends its tag, `once` only when absent. */
  lemma EntryStep(data: map<string, string>, keys: set<string>, f: string,
                  tag: (string, string) -> Option<string>, once: string,
                  before: seq<string>, after: seq<string>)
    requires f in data && f !in keys
    requires EntriesOf(data, keys, tag, once, before)
    requires var t := tag(f, data[f]);
      after == if t.None? || (t == Some(once) && once in before) then before
               else before + [t.value]
    ensures EntriesOf(data, keys + {f}, tag, once, after)
  {
    var t := tag(f, data[f]);
    var own := OwnEntryFields(data, keys, tag, once);
    if t.Some? && t.value != once {
      assert OwnEntryFields(data, keys + {f}, tag, once) == own + {f};
      assert once in after <==> once in before;
    } else {
      assert OwnEntryFields(data, keys + {f}, tag, once) == own;
      if t == Some(once) {
        assert OnceAmong(data, keys + {f}, tag, once);
      } else {
        assert OnceAmong(data, keys + {f}, tag, once) <==> OnceAmong(data, keys, tag, once);
      }
    }
  }

  lemma SubsetCardinality(a: set<string>, b: set<string>)
    requires a <= b
    ensures |a| <= |b|
  {
    assert b == a + (b - a);
  }

  /** Each of two distinct fields with its own tagged entry makes the count
      reach two. */
  lemma TwoOwnEntries(data: map<string, string>, tag: (string, string) -> Option<string>,
                      once: string, f: string, g: string)
    requires f != g && f in data && g in data
    requires tag(f, data[f]).Some? && tag(f, data[f]).value != once
    requires tag(g, data[g]).Some? && tag(g, data[g]).value != once
    ensures EntryCount(data, data.Keys, tag, once) >= 2
  {
    var own := OwnEntryFields(data, data.Keys, tag, once);
    assert {f, g} <= own;
    SubsetCardinality({f, g}, own);
  }

  /** A count of one or more comes from some tagged field. */
  lemma PositiveCountHasField(data: map<string, string>, tag: (string, string) -> Option<string>, once: string)
    requires EntryCount(data, data.Keys, tag, once) >= 1
    ensures exists f :: f in data && tag(f, data[f]).Some?
  {
    if OwnEntryFields(data, data.Keys, tag, once) != {} {
      var f :| f in OwnEntryFields(data, data.Keys, tag, once);
      assert f in data && tag(f, data[f]).Some?;
    } else {
      var f :| f in data.Keys && f in data && tag(f, data[f]) == Some(once);
      assert f in data && tag(f, data[f]).Some?;
    }
  }

  /** A record with one field has at most one entry. */
  lemma SingleFieldCount(f: string, v: string, tag: (string, string) -> Option<string>, once: string)
    ensures EntryCount(map[f := v], {f}, tag, once) <= 1
  {
    var data := map[f := v];
    var own := OwnEntryFields(data, {f}, tag, once);
    assert own <= {f};
    SubsetCardinality(own, {f});
    if OnceAmong(data, {f}, tag, once) {
      assert own == {};
    }
  }

  /** A record with one field: its masks and whether it is picked. */
  lemma SingleFieldMasks(f: string, v: string, sel: (string, string) -> bool, mask: (string, string) -> string)
    ensures Masks(map[f := v], {f}, sel, mask) == if sel(f, v) then map[f := mask(f, v)] else map[]
    ensures AnyPicked(map[f := v], {f}, sel) <==> sel(f, v)
  {
    var data := map[f := v];
    if sel(f, v) {
      assert f in data && sel(f, data[f]);
    }
  }

  lemma TwoFieldKeys(f: string, v: string, g: string, w: string)
    ensures map[f := v, g := w].Keys == {f, g}
  {
  }

  /** A record with two fields: its masks and whether one is picked. */
  lemma TwoFieldMasks(f: string, v: string, g: string, w: string,
                      sel: (string, string) -> bool, mask: (string, string) -> string)
    requires f != g
    ensures Masks(map[f := v, g := w], {f, g}, sel, mask) ==
              (if sel(f, v) then map[f := mask(f, v)] else map[])
              + (if sel(g, w) then map[g := mask(g, w)] else map[])
    ensures AnyPicked(map[f := v, g := w], {f, g}, sel) <==> sel(f, v) || sel(g, w)
  {
    var data := map[f := v, g := w];
    assert data[f] == v && data[g] == w;
    if sel(f, v) {
      assert f in data && sel(f, data[f]);
    }
    if sel(g, w) {
      assert g in data && sel(g, data[g]);
    }
  }

  /** A record with two fields of which the first has no tag has at most
      one entry. */
  lemma TwoFieldsOneUntagged(f: string, v: string, g: string, w: string,
                             tag: (string, string) -> Option<string>, once: string)
    requires f != g && tag(f, v).None?
    ensures EntryCount(map[f := v, g := w], {f, g}, tag, once) <= 1
  {
    var data := map[f := v, g := w];
    assert data[f] == v && data[g] == w;
    var own := OwnEntryFields(data, {f, g}, tag, once);
    assert own <= {g};
    SubsetCardinality(own, {g});
    if OnceAmong(data, {f, g}, tag, once) {
      assert own == {};
    }
  }

  /** One field with its own entry and another with the tag `once` make the
      count reach two. */
  lemma OwnAndOnce(data: map<string, string>, tag: (string, string) -> Option<string>,
                   once: string, f: string, g: string)
    requires f in data && g in data
    requires tag(f, data[f]).Some? && tag(f, data[f]).value != once
    requires tag(g, data[g]) == Some(once)
    ensures EntryCount(data, data.Keys, tag, once) >= 2
  {
    var own := OwnEntryFields(data, data.Keys, tag, once);
    assert {f} <= own;
    SubsetCardinality({f}, own);
    assert OnceAmong(data, data.Keys, tag, once);
  }

  /** When the tag `once` comes only from the fields `fs`, and those fields
      give no other tag, they add at most the single `once` entry: the count
      is that of the record without them, plus one if any of them has it. */
  lemma CountWithout(data: map<string, string>, fs: set<string>,
                     tag: (string, string) -> Option<string>, once: string)
    requires forall f :: f in fs && f in data ==> tag(f, data[f]).None? || tag(f, data[f]) == Some(once)
    requires forall f :: f in data && tag(f, data[f]) == Some(once) ==> f in fs
    ensures EntryCount(data, data.Keys, tag, once) ==
              EntryCount(data - fs, (data - fs).Keys, tag, once)
              + (if OnceAmong(data, data.Keys, tag, once) then 1 else 0)
  {
    var rest := data - fs;
    forall f | f in rest ensures rest[f] == data[f] && f !in fs {
    }
    assert OwnEntryFields(data, data.Keys, tag, once) == OwnEntryFields(rest, rest.Keys, tag, once);
    forall f | f in rest ensures tag(f, rest[f]) != Some(once) {
      assert f !in fs;
    }
    assert !OnceAmong(rest, rest.Keys, tag, once);
  }
}
