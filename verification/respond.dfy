/** The `Respond` trait of the `http` library (libs/http/src/respond.rs):
    the JSON-style text of strings, booleans, bytes, string vectors and
    string-keyed maps of boxed responders.

    The encoder escapes nothing: a string is wrapped in quotes as it is,
    and the elements of a string vector are not quoted at all. A
    `HashMap`'s iteration order is not specified, so an object is given
    by the sequence of entries in the order the map yields them;
    `Enumerates` ties such a sequence to the map it lists. */
module Respond {
  import opened Strings

  /** A Rust `u8`. */
  type Byte = n: nat | n < 256

  /** A value of one of the types that implement `Respond`. */
  datatype Value =
    | Str(s: string)
    | Bool(b: bool)
    | U8(n: Byte)
    | Strings(items: seq<string>)
    | Object(entries: seq<Entry>)

  datatype Entry = Entry(key: string, value: Value)

  function UnwrapOr(o: Option<string>, default: string): string
  {
    match o
    case Some(s) => s
    case None => default
  }

  /** `get_json`. */
  function GetJson(v: Value): string
    decreases v, 1
  {
    match v
    case Str(s) => "\"" + s + "\""
    case Bool(b) => if b then "true" else "false"
    case U8(n) => Decimal(n)
    case Strings(xs) => "[" + UnwrapOr(StripSuffix(Terminated(xs, ","), ","), "") + "]"
    case Object(es) => "{" + UnwrapOr(StripSuffix(Terminated(EntryTexts(v, es), ","), ","), "") + "}"
  }

  /** One map entry as the map encoder writes it, before its comma. */
  function EntryJson(e: Entry): string
    decreases e, 1
  {
    "\"" + e.key + "\":" + GetJson(e.value)
  }

  /** The entry texts of `es`, a suffix of the entries of `parent`. */
  function EntryTexts(parent: Value, es: seq<Entry>): (r: seq<string>)
    requires forall i :: 0 <= i < |es| ==> es[i] < parent
    ensures |r| == |es|
    ensures forall i :: 0 <= i < |es| ==> r[i] == EntryJson(es[i])
    decreases parent, 0, |es|
  {
    if |es| == 0 then [] else [EntryJson(es[0])] + EntryTexts(parent, es[1..])
  }

  /** The entry texts of a sequence of entries, in order. */
  function Texts(es: seq<Entry>): (r: seq<string>)
    ensures |r| == |es| && forall i :: 0 <= i < |es| ==> r[i] == EntryJson(es[i])
  {
    seq(|es|, i requires 0 <= i < |es| => EntryJson(es[i]))
  }

  // -----------------------------------------------------------------------
  // The collections are joins
  // -----------------------------------------------------------------------

  /** `collect` then `strip_suffix(",")` then `unwrap_or("")` is a join
      with commas; an empty collection gives the empty string. */
  lemma StripJoin(xs: seq<string>)
    ensures UnwrapOr(StripSuffix(Terminated(xs, ","), ","), "") == Join(xs, ",")
  {
    if |xs| > 0 {
      StripTerminatedIsJoin(xs, ",");
    }
  }

  /** A vector is its elements, unquoted, between brackets with commas. */
  lemma StringsJson(xs: seq<string>)
    ensures GetJson(Strings(xs)) == "[" + Join(xs, ",") + "]"
  {
    StripJoin(xs);
  }

  /** A map is its entries `"key":value` between braces with commas. */
  lemma ObjectJson(es: seq<Entry>)
    ensures GetJson(Object(es)) == "{" + Join(Texts(es), ",") + "}"
  {
    var v := Object(es);
    assert EntryTexts(v, es) == Texts(es);
    StripJoin(Texts(es));
  }

  // -----------------------------------------------------------------------
  // Reading scalar values back
  // -----------------------------------------------------------------------

  /** Removes the quotes around a string's text. */
  function Unquote(t: string): Option<string>
  {
    if |t| >= 2 && t[0] == '"' && t[|t| - 1] == '"' then Some(t[1..|t| - 1]) else None
  }

  function ParseBool(t: string): Option<bool>
  {
    if t == "true" then Some(true) else if t == "false" then Some(false) else None
  }

  /** Strings, booleans and bytes read back to the value they encode; a
      byte takes one to three digits. */
  lemma ScalarRoundTrips(s: string, b: bool, n: Byte)
    ensures Unquote(GetJson(Str(s))) == Some(s)
    ensures ParseBool(GetJson(Bool(b))) == Some(b)
    ensures ParseUsize(GetJson(U8(n))) == Some(n)
    ensures 1 <= |GetJson(U8(n))| <= 3
  {
    var t := GetJson(Str(s));
    assert t[1..|t| - 1] == s;
    ParseDecimalRoundTrip(n);
    DecimalLength(n, 3);
  }

  /** Without commas inside the elements, splitting the bracketed text on
      commas gives the vector back. */
  lemma StringsSplitBack(xs: seq<string>)
    requires |xs| >= 1
    requires forall i :: 0 <= i < |xs| ==> ',' !in xs[i]
    ensures var t := GetJson(Strings(xs)); Split(t[1..|t| - 1], ',') == xs
  {
    StringsJson(xs);
    var t := GetJson(Strings(xs));
    assert t[1..|t| - 1] == Join(xs, ",");
    SplitJoin(xs, ',');
  }

  // -----------------------------------------------------------------------
  // Maps and their iteration orders
  // -----------------------------------------------------------------------

  /** `es` lists the map `m` in some order: each key once, with its value. */
  predicate Enumerates(es: seq<Entry>, m: map<string, Value>)
  {
    && (forall i :: 0 <= i < |es| ==> es[i].key in m && m[es[i].key] == es[i].value)
    && (forall i, j :: 0 <= i < j < |es| ==> es[i].key != es[j].key)
    && (forall k :: k in m ==> exists i :: 0 <= i < |es| && es[i].key == k)
  }

  /** `collect::<HashMap>` (and `HashMap::from`) over entries in order: a
      later entry replaces an earlier one under the same key. */
  function Collect(es: seq<Entry>): map<string, Value>
    decreases |es|
  {
    if |es| == 0 then map[]
    else Collect(es[..|es| - 1])[es[|es| - 1].key := es[|es| - 1].value]
  }

  /** Entries with distinct keys are one enumeration of the map they
      collect into. */
  lemma {:induction false} CollectEnumerates(es: seq<Entry>)
    requires forall i, j :: 0 <= i < j < |es| ==> es[i].key != es[j].key
    ensures Enumerates(es, Collect(es))
    decreases |es|
  {
    if |es| > 0 {
      var n := |es| - 1;
      var p, last := es[..n], es[n];
      var m := Collect(es);
      CollectEnumerates(p);
      forall i | 0 <= i < |es|
        ensures es[i].key in m && m[es[i].key] == es[i].value
      {
        if i < n {
          assert p[i] == es[i];
        }
      }
      forall k | k in m
        ensures exists i :: 0 <= i < |es| && es[i].key == k
      {
        if k != last.key {
          var i :| 0 <= i < |p| && p[i].key == k;
          assert es[i].key == k;
        } else {
          assert es[n].key == k;
        }
      }
    }
  }

  lemma {:induction false} TotalLengthAppend(a: seq<string>, b: seq<string>)
    ensures TotalLength(a + b) == TotalLength(a) + TotalLength(b)
    decreases |a|
  {
    if |a| == 0 {
      assert a + b == b;
    } else {
      assert (a + b)[1..] == a[1..] + b;
      TotalLengthAppend(a[1..], b);
    }
  }

  /** The summed length of the entry texts. */
  function Weight(es: seq<Entry>): nat
  {
    if |es| == 0 then 0 else |EntryJson(es[0])| + Weight(es[1..])
  }

  lemma {:induction false} WeightIsTotalLength(es: seq<Entry>)
    ensures Weight(es) == TotalLength(Texts(es))
    decreases |es|
  {
    if |es| > 0 {
      assert Texts(es)[1..] == Texts(es[1..]);
      WeightIsTotalLength(es[1..]);
    }
  }

  lemma {:induction false} WeightAppend(a: seq<Entry>, b: seq<Entry>)
    ensures Weight(a + b) == Weight(a) + Weight(b)
    decreases |a|
  {
    if |a| == 0 {
      assert a + b == b;
    } else {
      assert (a + b)[1..] == a[1..] + b;
      WeightAppend(a[1..], b);
    }
  }

  /** Taking entry `j` out of a sequence takes its text's length out of
      the weight. */
  lemma WeightWithout(es: seq<Entry>, j: nat)
    requires j < |es|
    ensures Weight(es) == Weight(es[..j] + es[j + 1..]) + |EntryJson(es[j])|
  {
    var a, b := es[..j], es[j + 1..];
    assert es == (a + [es[j]]) + b;
    WeightAppend(a + [es[j]], b);
    WeightAppend(a, [es[j]]);
    WeightAppend(a, b);
  }

  /** Removing entry `j` from an enumeration of `m` enumerates `m` without
      that entry's key. */
  lemma EnumeratesWithout(es: seq<Entry>, m: map<string, Value>, j: nat)
    requires Enumerates(es, m) && j < |es|
    ensures Enumerates(es[..j] + es[j + 1..], m - {es[j].key})
  {
    WithoutKeepsValues(es, m, j);
    WithoutKeepsKeysDistinct(es, j);
    WithoutCoversRest(es, m, j);
  }

  /** Where entry `i` of `es[..j] + es[j + 1..]` came from. */
  function Source(i: nat, j: nat): nat
  {
    if i < j then i else i + 1
  }

  lemma WithoutKeepsValues(es: seq<Entry>, m: map<string, Value>, j: nat)
    requires Enumerates(es, m) && j < |es|
    ensures var rest, m' := es[..j] + es[j + 1..], m - {es[j].key};
      forall i :: 0 <= i < |rest| ==> rest[i].key in m' && m'[rest[i].key] == rest[i].value
  {
    var rest, m' := es[..j] + es[j + 1..], m - {es[j].key};
    forall i | 0 <= i < |rest|
      ensures rest[i].key in m' && m'[rest[i].key] == rest[i].value
    {
      assert rest[i] == es[Source(i, j)];
      assert Source(i, j) != j;
    }
  }

  lemma WithoutKeepsKeysDistinct(es: seq<Entry>, j: nat)
    requires j < |es|
    requires forall i, i' :: 0 <= i < i' < |es| ==> es[i].key != es[i'].key
    ensures var rest := es[..j] + es[j + 1..];
      forall i, i' :: 0 <= i < i' < |rest| ==> rest[i].key != rest[i'].key
  {
    var rest := es[..j] + es[j + 1..];
    forall i, i' | 0 <= i < i' < |rest|
      ensures rest[i].key != rest[i'].key
    {
      assert rest[i] == es[Source(i, j)] && rest[i'] == es[Source(i', j)];
      assert Source(i, j) < Source(i', j);
    }
  }

  lemma WithoutCoversRest(es: seq<Entry>, m: map<string, Value>, j: nat)
    requires Enumerates(es, m) && j < |es|
    ensures var rest, m' := es[..j] + es[j + 1..], m - {es[j].key};
      forall k :: k in m' ==> exists i :: 0 <= i < |rest| && rest[i].key == k
  {
    var rest, m' := es[..j] + es[j + 1..], m - {es[j].key};
    forall k | k in m'
      ensures exists i :: 0 <= i < |rest| && rest[i].key == k
    {
      var i :| 0 <= i < |es| && es[i].key == k;
      var idx := if i < j then i else i - 1;
      assert rest[idx] == es[i];
    }
  }

  /** Any two iteration orders of the same map encode to the same number of
      bytes: the `Content-Length` of a map body does not depend on the
      order the `HashMap` happens to yield. */
  lemma {:induction false} EnumerationsSameLength(es1: seq<Entry>, es2: seq<Entry>, m: map<string, Value>)
    requires Enumerates(es1, m) && Enumerates(es2, m)
    ensures |es1| == |es2|
    ensures TotalLength(Texts(es1)) == TotalLength(Texts(es2))
  {
    EnumerationsSameWeight(es1, es2, m);
    WeightIsTotalLength(es1);
    WeightIsTotalLength(es2);
  }

  lemma {:induction false} EnumerationsSameWeight(es1: seq<Entry>, es2: seq<Entry>, m: map<string, Value>)
    requires Enumerates(es1, m) && Enumerates(es2, m)
    ensures |es1| == |es2| && Weight(es1) == Weight(es2)
    decreases |es1|
  {
    if |es1| == 0 {
      EnumerationOfEmpty(es1, es2, m);
    } else {
      var e := es1[0];
      assert e.key in m && m[e.key] == e.value;
      var j :| 0 <= j < |es2| && es2[j] == e;
      EnumeratesWithout(es1, m, 0);
      assert es1[..0] + es1[1..] == es1[1..];
      EnumeratesWithout(es2, m, j);
      EnumerationsSameWeight(es1[1..], es2[..j] + es2[j + 1..], m - {e.key});
      WeightWithout(es2, j);
    }
  }

  lemma EnumerationOfEmpty(es1: seq<Entry>, es2: seq<Entry>, m: map<string, Value>)
    requires Enumerates(es1, m) && Enumerates(es2, m)
    ensures |es2| > 0 ==> |es1| > 0
  {
    if |es2| > 0 {
      assert es2[0].key in m;
    }
  }


  /** The encoded length of a map in any of its iteration orders. */
  lemma ObjectLength(es: seq<Entry>, m: map<string, Value>)
    requires Enumerates(es, m)
    ensures |GetJson(Object(es))| == if |es| == 0 then 2 else TotalLength(Texts(es)) + |es| + 1
  {
    ObjectJson(es);
    if |es| > 0 {
      JoinLength(Texts(es), ",");
    }
  }

  /** Every entry of the map appears in its encoding, whatever the order. */
  lemma {:induction false} JoinContains(xs: seq<string>, sep: string, i: nat)
    requires i < |xs|
    ensures Contains(Join(xs, sep), xs[i])
    decreases |xs|
  {
    if |xs| == 1 {
      assert OccursAt(xs[0], Join(xs, sep), 0);
    } else if i == 0 {
      assert OccursAt(xs[0], Join(xs, sep), 0);
    } else {
      JoinContains(xs[1..], sep, i - 1);
      var rest := Join(xs[1..], sep);
      var p: nat :| p <= |rest| && OccursAt(xs[i], rest, p);
      var off := |xs[0] + sep|;
      assert Join(xs, sep) == (xs[0] + sep) + rest;
      assert Join(xs, sep)[off + p..off + p + |xs[i]|] == rest[p..p + |xs[i]|];
      assert OccursAt(xs[i], Join(xs, sep), off + p);
    }
  }

  /** A piece of the inner text is a piece of the text wrapped around it. */
  lemma ContainsWrapped(inner: string, x: string, left: string, right: string)
    requires Contains(inner, x)
    ensures Contains(left + inner + right, x)
  {
    var p: nat :| p <= |inner| && OccursAt(x, inner, p);
    var t := left + inner + right;
    assert t[|left| + p..|left| + p + |x|] == inner[p..p + |x|];
    assert OccursAt(x, t, |left| + p);
  }

  lemma EntriesAppear(es: seq<Entry>, m: map<string, Value>, k: string)
    requires Enumerates(es, m) && k in m
    ensures Contains(GetJson(Object(es)), EntryJson(Entry(k, m[k])))
  {
    var i :| 0 <= i < |es| && es[i].key == k;
    assert es[i] == Entry(k, m[k]);
    ObjectJson(es);
    JoinContains(Texts(es), ",", i);
    ContainsWrapped(Join(Texts(es), ","), EntryJson(es[i]), "{", "}");
  }

  /** Two iteration orders of one map hold as many entries, encode to as
      many bytes between braces, and every entry of one appears in the
      encoding of the other. */
  lemma SameMapEncodings(es: seq<Entry>, ref: seq<Entry>, m: map<string, Value>)
    requires Enumerates(es, m) && Enumerates(ref, m)
    ensures |es| == |ref|
    ensures var t := GetJson(Object(es));
      && |t| == |GetJson(Object(ref))|
      && StartsWith(t, "{") && EndsWith(t, "}")
      && forall i :: 0 <= i < |ref| ==> Contains(t, EntryJson(ref[i]))
  {
    EnumerationsSameLength(es, ref, m);
    ObjectLength(es, m);
    ObjectLength(ref, m);
    ObjectJson(es);
    forall i | 0 <= i < |ref|
      ensures Contains(GetJson(Object(es)), EntryJson(ref[i]))
    {
      assert ref[i] == Entry(ref[i].key, m[ref[i].key]);
      EntriesAppear(es, m, ref[i].key);
    }
  }

  /** Two enumerations of one map list the same entries: every entry of
      one is an entry of the other. */
  lemma EnumerationListsReference(es: seq<Entry>, ref: seq<Entry>, m: map<string, Value>)
    requires Enumerates(es, m) && Enumerates(ref, m)
    ensures forall i :: 0 <= i < |es| ==> es[i] in ref
  {
    forall i | 0 <= i < |es|
      ensures es[i] in ref
    {
      var j :| 0 <= j < |ref| && ref[j].key == es[i].key;
      assert ref[j] == es[i];
    }
  }

  /** A string, boolean or byte, or a vector of at most one item, under a
      comma-free key and with comma-free text is written without a comma,
      so it survives a split of the object on commas. */
  lemma ScalarEntryHasNoComma(e: Entry)
    requires ',' !in e.key
    requires e.value.Str? ==> ',' !in e.value.s
    requires e.value.Strings? ==> |e.value.items| <= 1 && forall i :: 0 <= i < |e.value.items| ==> ',' !in e.value.items[i]
    requires !e.value.Object?
    ensures ',' !in EntryJson(e)
  {
    if e.value.Strings? {
      StringsJson(e.value.items);
    }
  }

  /** Without commas inside the entries, splitting the braced text on
      commas gives the entry texts back in order. */
  lemma ObjectSplitsIntoEntries(es: seq<Entry>)
    requires |es| >= 1
    requires forall i :: 0 <= i < |es| ==> ',' !in EntryJson(es[i])
    ensures var t := GetJson(Object(es)); Split(t[1..|t| - 1], ',') == Texts(es)
  {
    ObjectJson(es);
    var t := GetJson(Object(es));
    assert t[1..|t| - 1] == Join(Texts(es), ",");
    SplitJoin(Texts(es), ',');
  }
}
