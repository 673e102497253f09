/** The persisted form of the ledger. JSON object keys are text, so `json.dump`
    writes each chat id with `str(k)` and loading turns each key back with
    `int(k)`. Group chat ids are negative, so the sign matters. */
module Codec {
  import opened Wrappers
  import opened Tracking

  predicate IsDigit(c: char) {
    '0' <= c <= '9'
  }

  function DigitValue(c: char): (d: nat)
    requires IsDigit(c)
    ensures d < 10
  {
    (c as int) - ('0' as int)
  }

  function DigitChar(d: nat): (c: char)
    requires d < 10
    ensures IsDigit(c) && DigitValue(c) == d
  {
    (('0' as int) + d) as char
  }

  /** What Python's `int()` accepts after an optional sign: decimal digits,
      with single underscores allowed between two digits. */
  predicate DigitRun(s: string) {
    && |s| > 0
    && IsDigit(s[0])
    && IsDigit(s[|s| - 1])
    && (forall i :: 0 <= i < |s| ==> IsDigit(s[i]) || s[i] == '_')
    && (forall i :: 0 <= i < |s| - 1 ==> s[i] == '_' ==> s[i + 1] != '_')
  }

  /** The value of a run of digits and underscores; underscores are ignored. */
  function Magnitude(s: string): nat
    requires forall i :: 0 <= i < |s| ==> IsDigit(s[i]) || s[i] == '_'
  {
    if s == [] then 0
    else if s[|s| - 1] == '_' then Magnitude(s[..|s| - 1])
    else Magnitude(s[..|s| - 1]) * 10 + DigitValue(s[|s| - 1])
  }

  /** Python's `int(s)`: `None` where it raises ValueError. */
  function ParseInt(s: string): (r: Option<int>)
    ensures r.Some? ==> |s| > 0 && IsDigit(s[|s| - 1])
    ensures r.Some? ==> forall i :: 0 < i < |s| ==> IsDigit(s[i]) || s[i] == '_'
    ensures r.Some? && r.value < 0 ==> s[0] == '-'
  {
    if |s| > 0 && (s[0] == '-' || s[0] == '+') then
      if DigitRun(s[1..]) then
        var m: int := Magnitude(s[1..]);
        Some(if s[0] == '-' then -m else m)
      else None
    else if DigitRun(s) then Some(Magnitude(s))
    else None
  }

  /** Python's `str(n)` for a natural number. */
  function NatText(n: nat): (s: string)
    ensures |s| > 0 && forall i :: 0 <= i < |s| ==> IsDigit(s[i])
  {
    if n < 10 then [DigitChar(n)] else NatText(n / 10) + [DigitChar(n % 10)]
  }

  /** Python's `str(n)` for any integer: a minus sign, then the digits of |n|. */
  function IntText(n: int): (s: string)
    ensures |s| > 0 && (s[0] == '-' <==> n < 0)
    ensures forall i :: 0 < i < |s| ==> IsDigit(s[i])
  {
    if n < 0 then "-" + NatText(-n) else NatText(n)
  }

  /** The shape `str` produces: digits with no leading zero (or just "0"),
      after a minus sign for a negative number. */
  predicate Canonical(s: string) {
    var t := if |s| > 0 && s[0] == '-' then s[1..] else s;
    && |t| > 0
    && (forall i :: 0 <= i < |t| ==> IsDigit(t[i]))
    && (t[0] == '0' ==> |t| == 1 && t == s)
  }

  lemma {:induction false} NatTextValue(n: nat)
    ensures Magnitude(NatText(n)) == n
  {
    var s := NatText(n);
    if n >= 10 {
      NatTextValue(n / 10);
      assert s[..|s| - 1] == NatText(n / 10);
    }
  }

  /** Every digit string is something `int()` accepts. */
  lemma DigitsAreRun(t: string)
    requires |t| > 0 && forall i :: 0 <= i < |t| ==> IsDigit(t[i])
    ensures DigitRun(t)
  {
  }

  /** `str` puts a leading zero only on zero itself. */
  lemma {:induction false} NatTextLead(n: nat)
    ensures NatText(n)[0] == '0' <==> n == 0
  {
    if n >= 10 {
      NatTextLead(n / 10);
      assert NatText(n)[0] == NatText(n / 10)[0];
    }
  }

  /** Reading back what `str` wrote gives the same integer, negative ids included. */
  lemma {:induction false} ParseIntText(n: int)
    ensures ParseInt(IntText(n)) == Some(n)
  {
    var s := IntText(n);
    if n < 0 {
      var t := NatText(-n);
      assert s == "-" + t;
      assert s[0] == '-' && s[1..] == t;
      DigitsAreRun(t);
      NatTextValue(-n);
    } else {
      assert s == NatText(n);
      assert IsDigit(s[0]);
      DigitsAreRun(s);
      NatTextValue(n);
    }
  }

  /** `str` writes canonical text only. */
  lemma {:induction false} IntTextCanonical(n: int)
    ensures Canonical(IntText(n))
  {
    var s := IntText(n);
    if n < 0 {
      assert s == "-" + NatText(-n);
      assert s[1..] == NatText(-n);
      NatTextLead(-n);
    } else {
      NatTextLead(n);
      if n < 10 {
        assert NatText(n) == [DigitChar(n)];
      }
    }
  }

  /** A run of digits is worth at least its leading digit. */
  lemma {:induction false} MagnitudeAtLeastLead(s: string)
    requires |s| > 0 && forall i :: 0 <= i < |s| ==> IsDigit(s[i])
    ensures Magnitude(s) >= DigitValue(s[0])
  {
    if |s| > 1 {
      MagnitudeAtLeastLead(s[..|s| - 1]);
    }
  }

  lemma {:induction false} DigitsText(t: string)
    requires |t| > 0 && forall i :: 0 <= i < |t| ==> IsDigit(t[i])
    requires t[0] == '0' ==> |t| == 1
    ensures NatText(Magnitude(t)) == t
  {
    var p := t[..|t| - 1];
    var c := t[|t| - 1];
    if p == [] {
      assert t == [c];
    } else {
      DigitsText(p);
      MagnitudeAtLeastLead(p);
      var a, d := Magnitude(p), DigitValue(c);
      assert Magnitude(t) == a * 10 + d;
      SplitLastDigit(a, d);
      assert DigitChar(d) == c;
      assert t == p + [c];
    }
  }

  /** Dividing by ten undoes appending a digit. */
  lemma SplitLastDigit(a: nat, d: nat)
    requires d < 10
    ensures (a * 10 + d) / 10 == a && (a * 10 + d) % 10 == d
  {
  }

  /** The other direction: canonical text parses, and `str` of the result is
      that same text. With ParseIntText, `str` and `int` are inverse
      bijections between integers and canonical texts. */
  lemma {:induction false} TextParseInt(s: string)
    requires Canonical(s)
    ensures ParseInt(s).Some? && IntText(ParseInt(s).value) == s
  {
    if |s| > 0 && s[0] == '-' {
      NegativeParse(s[1..]);
      NegativeShow(s[1..]);
      assert s == "-" + s[1..];
    } else {
      assert IsDigit(s[0]);
      DigitsAreRun(s);
      DigitsText(s);
      assert ParseInt(s) == Some(Magnitude(s));
    }
  }

  /** `int()` reads a minus sign before digits as the negated magnitude. */
  lemma {:induction false} NegativeParse(t: string)
    requires |t| > 0 && forall i :: 0 <= i < |t| ==> IsDigit(t[i])
    ensures ParseInt("-" + t) == Some(-(Magnitude(t) as int))
  {
    var s := "-" + t;
    assert s[0] == '-' && s[1..] == t;
    DigitsAreRun(t);
  }

  /** `str` writes a negative number as a minus sign before canonical digits. */
  lemma {:induction false} NegativeShow(t: string)
    requires |t| > 0 && t[0] != '0' && forall i :: 0 <= i < |t| ==> IsDigit(t[i])
    ensures IntText(-(Magnitude(t) as int)) == "-" + t
  {
    var m := Magnitude(t);
    assert m > 0 by {
      MagnitudeAtLeastLead(t);
      assert DigitValue(t[0]) > 0;
    }
    assert NatText(m) == t by {
      DigitsText(t);
    }
  }

  /** A JSON object as `json.load` hands it over: the members of its dict in
      key order. `json.load` has already merged repeated keys of the file
      (first place, last value), so the keys are distinct (`DistinctKeys`). */
  type JsonObject = seq<(string, seq<int>)>

  /** No key appears twice among the members. */
  predicate DistinctKeys(obj: JsonObject) {
    forall i, j :: 0 <= i < j < |obj| ==> obj[i].0 != obj[j].0
  }

  /** The comprehension `{int(k): v for k, v in data.items()}`: it fails as a
      whole when one key is not an integer literal; a later key that parses to
      an id already seen overrides the value, keeping the first position. The
      second component is the resulting dict's key order. */
  function DecodeKeys(obj: JsonObject): (r: Option<(map<int, seq<int>>, seq<int>)>)
    ensures r.Some? ==> NoDup(r.value.1) && forall k :: k in r.value.1 <==> k in r.value.0
  {
    if obj == [] then Some((map[], []))
    else
      match DecodeKeys(obj[..|obj| - 1])
      case None => None
      case Some(prev) =>
        match ParseInt(obj[|obj| - 1].0)
        case None => None
        case Some(k) => Some((prev.0[k := obj[|obj| - 1].1], Insert(prev.1, k)))
  }

  /** `load_banned_users`: a missing, unreadable or malformed file (`None`),
      or a key that does not parse, gives the empty ledger. */
  function Load(file: Option<JsonObject>): (r: (map<int, seq<int>>, seq<int>))
    ensures NoDup(r.1) && forall k :: k in r.1 <==> k in r.0
    ensures file.None? ==> r.0 == map[]
  {
    match file
    case None => (map[], [])
    case Some(obj) => DecodeKeys(obj).GetOr((map[], []))
  }

  /** `json.dump(banned_users_db)`: one member per chat, in the dict's key
      order, the key written as `str(k)`. */
  function Dump(db: map<int, seq<int>>, order: seq<int>): (obj: JsonObject)
    requires forall k :: k in order ==> k in db
    ensures |obj| == |order|
  {
    if order == [] then []
    else Dump(db, order[..|order| - 1]) + [(IntText(order[|order| - 1]), db[order[|order| - 1]])]
  }

  /** Member `i` of the dump is chat `order[i]`, its key written with `str`. */
  lemma {:induction false} DumpEntries(db: map<int, seq<int>>, order: seq<int>)
    requires forall k :: k in order ==> k in db
    ensures |Dump(db, order)| == |order|
    ensures forall i :: 0 <= i < |order| ==> Dump(db, order)[i] == (IntText(order[i]), db[order[i]])
  {
    if order != [] {
      var o := order[..|order| - 1];
      DumpEntries(db, o);
      forall i | 0 <= i < |o|
        ensures order[i] == o[i]
      {
      }
    }
  }

  /** A dump of a duplicate-free key order has distinct keys, since `str`
      writes different ids differently; `json.load` then merges nothing. */
  lemma {:induction false} DumpDistinctKeys(db: map<int, seq<int>>, order: seq<int>)
    requires NoDup(order) && forall k :: k in order ==> k in db
    ensures DistinctKeys(Dump(db, order))
  {
    DumpEntries(db, order);
    var obj := Dump(db, order);
    forall i, j | 0 <= i < j < |obj|
      ensures obj[i].0 != obj[j].0
    {
      ParseIntText(order[i]);
      ParseIntText(order[j]);
    }
  }

  /** Decoding one more member on top of a decoded prefix. */
  lemma DecodeKeysSnoc(obj: JsonObject, key: string, users: seq<int>)
    ensures DecodeKeys(obj + [(key, users)]) ==
      match DecodeKeys(obj)
      case None => None
      case Some(prev) =>
        match ParseInt(key)
        case None => None
        case Some(k) => Some((prev.0[k := users], Insert(prev.1, k)))
  {
    assert (obj + [(key, users)])[..|obj|] == obj;
  }

  /** The part of `db` on the chats of `order`. */
  function Restrict(db: map<int, seq<int>>, order: seq<int>): (m: map<int, seq<int>>)
    requires forall k :: k in order ==> k in db
    ensures forall j :: j in m <==> j in order
  {
    map j | j in order :: db[j]
  }

  /** Loading a dump of the chats of a duplicate-free `order` gives those
      chats with their lists, in that order. */
  lemma {:induction false} DecodeDumpPrefix(db: map<int, seq<int>>, order: seq<int>)
    requires NoDup(order) && forall k :: k in order ==> k in db
    ensures DecodeKeys(Dump(db, order)) == Some((Restrict(db, order), order))
  {
    if order != [] {
      var o := order[..|order| - 1];
      var k := order[|order| - 1];
      assert order == o + [k];
      NoDupSnoc(order);
      DecodeDumpPrefix(db, o);
      var prefix := Dump(db, o);
      assert Dump(db, order) == prefix + [(IntText(k), db[k])];
      DecodeKeysSnoc(prefix, IntText(k), db[k]);
      ParseIntText(k);
      DecodeStep(db, o, k);
    }
  }

  lemma DecodeStep(db: map<int, seq<int>>, o: seq<int>, k: int)
    requires k !in o && k in db && forall j :: j in o ==> j in db
    ensures Insert(o, k) == o + [k]
    ensures Restrict(db, o)[k := db[k]] == Restrict(db, o + [k])
  {
    var m, m' := Restrict(db, o)[k := db[k]], Restrict(db, o + [k]);
    assert forall j :: j in m <==> j in m';
  }

  /** Saving the ledger and loading the file back restores the same ledger,
      and even the same key order. */
  lemma {:induction false} DumpLoad(db: map<int, seq<int>>, order: seq<int>)
    requires NoDup(order) && forall k :: k in order <==> k in db
    ensures Load(Some(Dump(db, order))) == (db, order)
  {
    DecodeDumpPrefix(db, order);
    var m := Restrict(db, order);
    forall j
      ensures j in m.Keys <==> j in db.Keys
    {
      assert j in m <==> j in order;
    }
    assert m == db;
  }
}
