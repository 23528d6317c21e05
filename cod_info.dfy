/** The info-string reader of the web front-end (frontend/app.js): a server
    answers `getinfo` with `\key\value\key\value...`, and the front-end
    pulls a fixed list of fields out of that text by substring search.
    JavaScript's `indexOf` and `substring` are modelled with their own
    edge cases: an empty key is found at 0, bounds are clamped and swapped. */
module CodInfo {
  import opened Wire

  /** The JavaScript values `get_codInfo_value` returns. */
  datatype JsValue = Str(s: string) | Num(n: int) | Bool(b: bool)

  /** The separator between keys and values. */
  const Separator: char := '\\'

  /** `key` occurs in `s` starting at position `i`. */
  predicate OccursAt(s: string, key: string, i: nat) {
    i + |key| <= |s| && s[i..i + |key|] == key
  }

  predicate Occurs(s: string, key: string) {
    exists i: nat :: i <= |s| && OccursAt(s, key, i)
  }

  lemma ShiftOccurrence(s: string, key: string)
    requires s != []
    ensures forall i: nat :: OccursAt(s, key, i + 1) <==> OccursAt(s[1..], key, i)
  {
    forall i: nat ensures OccursAt(s, key, i + 1) <==> OccursAt(s[1..], key, i) {
      if i + 1 + |key| <= |s| {
        var a, b := s[i + 1..i + 1 + |key|], s[1..][i..i + |key|];
        assert forall j :: 0 <= j < |a| ==> a[j] == b[j];
      }
    }
  }

  /** `String.prototype.indexOf`: the first position where `key` occurs, or
      -1 when it occurs nowhere. */
  function IndexOf(s: string, key: string): (r: int)
    ensures -1 <= r <= |s|
    ensures r >= 0 ==> OccursAt(s, key, r)
    ensures r >= 0 ==> forall i: nat :: i < r ==> !OccursAt(s, key, i)
    ensures r == -1 <==> !Occurs(s, key)
    decreases |s|
  {
    if OccursAt(s, key, 0) then 0
    else if s == [] then -1
    else
      var r := IndexOf(s[1..], key);
      if r == -1 then
        NoneInTail(s, key);
        -1
      else
        FirstInTail(s, key, r);
        r + 1
  }

  /** A key that is neither at the start nor in the tail occurs nowhere. */
  lemma NoneInTail(s: string, key: string)
    requires s != [] && !OccursAt(s, key, 0) && !Occurs(s[1..], key)
    ensures !Occurs(s, key)
  {
    ShiftOccurrence(s, key);
    forall i: nat | i <= |s| ensures !OccursAt(s, key, i) {
      if i > 0 {
        assert !OccursAt(s[1..], key, i - 1);
      }
    }
  }

  /** The first occurrence in the tail, shifted by one, is the first in the
      whole when the key is not at the start. */
  lemma FirstInTail(s: string, key: string, r: nat)
    requires s != [] && !OccursAt(s, key, 0)
    requires OccursAt(s[1..], key, r) && forall i: nat :: i < r ==> !OccursAt(s[1..], key, i)
    ensures OccursAt(s, key, r + 1) && forall i: nat :: i < r + 1 ==> !OccursAt(s, key, i)
  {
    ShiftOccurrence(s, key);
    forall i: nat | i < r + 1 ensures !OccursAt(s, key, i) {
      if i > 0 {
        assert !OccursAt(s[1..], key, i - 1);
      }
    }
  }

  /** `String.prototype.includes`. */
  predicate Includes(s: string, key: string) {
    IndexOf(s, key) != -1
  }

  /** The index of a string of length `n` nearest to `x`: `substring` treats
      a negative bound as 0 and a bound past the end as the length. */
  function Clamp(x: int, n: nat): (c: nat)
    ensures c <= n
    ensures 0 <= x <= n ==> c == x
    ensures x < 0 ==> c == 0
    ensures x > n ==> c == n
  {
    if x < 0 then 0 else if x > n then n else x
  }

  /** `String.prototype.substring`: both bounds clamped to the string, and
      swapped when the start lies after the end. In-range ordered bounds
      give exactly the slice between them; a start inside the string and an
      end at or past its length give the whole suffix. */
  function Substring(s: string, start: int, end: int): (r: string)
    ensures |r| <= |s|
    ensures 0 <= start <= end <= |s| ==> r == s[start..end]
    ensures 0 <= start <= |s| <= end ==> r == s[start..]
    ensures end <= 0 <= start <= |s| ==> r == s[..start]
  {
    var a := Clamp(start, |s|);
    var b := Clamp(end, |s|);
    if a <= b then s[a..b] else s[b..a]
  }

  /** The order of the two bounds does not matter. */
  lemma SubstringSymmetric(s: string, start: int, end: int)
    ensures Substring(s, start, end) == Substring(s, end, start)
  {
  }

  /** `v` is the text of `s` from `start` up to the next separator or the end. */
  predicate ValueAt(s: string, start: nat, v: string) {
    && start + |v| <= |s|
    && s[start..start + |v|] == v
    && Separator !in v
    && (start + |v| == |s| || s[start + |v|] == Separator)
  }

  /** At most one text satisfies `ValueAt` for a given start. */
  lemma ValueAtUnique(s: string, start: nat, v: string, w: string)
    requires ValueAt(s, start, v) && ValueAt(s, start, w)
    ensures v == w
  {
  }

  /** The second `substring` of `get_codInfo_value`: the text before the
      first separator, or all of `rest` when it has none. */
  function CutAtSeparator(rest: string): (v: string)
    ensures ValueAt(rest, 0, v)
  {
    if Includes(rest, [Separator]) then
      var j := IndexOf(rest, [Separator]);
      assert rest[j..j + 1] == [Separator];
      assert forall i :: 0 <= i < j ==> !OccursAt(rest, [Separator], i) && rest[i..i + 1] == [rest[i]];
      Substring(rest, 0, j)
    else
      assert forall i :: 0 <= i < |rest| ==> !OccursAt(rest, [Separator], i) && rest[i..i + 1] == [rest[i]];
      rest
  }

  /** A value found in a suffix is found at the same place in the whole. */
  lemma ValueInSuffix(s: string, start: nat, v: string)
    requires start <= |s| && ValueAt(s[start..], 0, v)
    ensures ValueAt(s, start, v)
  {
    assert s[start..][..|v|] == s[start..start + |v|];
  }

  /** Cutting the rest of `s` from `start` at the next separator yields the
      value that starts at `start`, with `start` clamped as `substring`
      clamps it. */
  lemma ValueAfter(s: string, start: int)
    ensures ValueAt(s, Clamp(start, |s|), CutAtSeparator(Substring(s, start, |s|)))
  {
    var c := Clamp(start, |s|);
    assert Substring(s, start, |s|) == s[c..];
    ValueInSuffix(s, c, CutAtSeparator(s[c..]));
  }

  /** `get_codInfo_value`. When `codInfo` is empty or `key` occurs nowhere in
      it, the result is 0 for an integer field and "" otherwise. When `key`
      occurs, the value is the text that starts one character past the end
      of its first occurrence and runs to the next separator or the end of
      the string: converted by `string_number_to_bool` (the parameter
      `toBool`) for a boolean field, and a string even for an integer field. */
  function GetCodInfoValue(key: string, codInfo: string, asBool: bool, asInt: bool, toBool: string -> bool): (r: JsValue)
    ensures !(codInfo != "" && Occurs(codInfo, key)) ==> r == (if asInt then Num(0) else Str(""))
    ensures codInfo != "" && Occurs(codInfo, key) ==> (r.Bool? <==> asBool)
    ensures codInfo != "" && Occurs(codInfo, key) && !asBool ==>
      r.Str? && ValueAt(codInfo, Clamp(IndexOf(codInfo, key) + |key| + 1, |codInfo|), r.s)
  {
    var keyIndex := IndexOf(codInfo, key);
    if keyIndex != -1 && codInfo != "" && Includes(codInfo, key) then
      var start := keyIndex + |key| + 1;
      var keyval := CutAtSeparator(Substring(codInfo, start, |codInfo|));
      assert ValueAt(codInfo, Clamp(start, |codInfo|), keyval) by {
        ValueAfter(codInfo, start);
      }
      if asBool then Bool(toBool(keyval)) else Str(keyval)
    else if asInt then Num(0)
    else Str("")
  }

  /** A boolean field converts exactly the text the same field would yield
      as a string. */
  lemma BoolFlagConvertsText(key: string, codInfo: string, asInt: bool, toBool: string -> bool)
    requires codInfo != "" && Occurs(codInfo, key)
    ensures GetCodInfoValue(key, codInfo, true, asInt, toBool)
      == Bool(toBool(GetCodInfoValue(key, codInfo, false, asInt, toBool).s))
  {
  }

  // ---------------------------------------------------------------------
  // parse_codInfo
  // ---------------------------------------------------------------------

  /** One field `parse_codInfo` reads, with the flags it passes. */
  datatype Field = Field(name: string, asBool: bool, asInt: bool)

  /** The fields of `parse_codInfo`, in its order. */
  const Fields: seq<Field> := [
    Field("challenge", false, false),
    Field("checksum", false, false),
    Field("isPrivate", true, false),
    Field("hostname", false, false),
    Field("gamename", false, false),
    Field("sv_maxclients", false, true),
    Field("gametype", false, false),
    Field("sv_motd", false, false),
    Field("xuid", false, false),
    Field("mapname", false, false),
    Field("clients", false, true),
    Field("bots", false, true),
    Field("protocol", false, false),
    Field("fs_game", false, false),
    Field("hc", true, false),
    Field("securityLevel", false, false),
    Field("shortversion", false, false),
    Field("sv_running", true, false),
    Field("wwwDownload", false, false),
    Field("wwwUrl", false, false)
  ]

  /** No field is both boolean and integer, and no name is read twice, so the
      parsed record has one entry per field name. */
  lemma FieldsWellFormed()
    ensures |Fields| == 20
    ensures forall i :: 0 <= i < |Fields| ==> !(Fields[i].asBool && Fields[i].asInt)
    ensures forall i, j :: 0 <= i < j < |Fields| ==> Fields[i].name != Fields[j].name
  {
    forall i | 0 <= i < |Fields| ensures FieldIndex(Fields[i].name) == i {
    }
  }

  /** The position of the field named `name` (-1 for none), found by the
      name's length first and then among the names of that length. */
  function FieldIndex(name: string): int {
    match |name|
    case 2 => if name == "hc" then 14 else -1
    case 4 => if name == "xuid" then 8 else if name == "bots" then 11 else -1
    case 6 => if name == "wwwUrl" then 19 else -1
    case 7 =>
      if name == "sv_motd" then 7 else if name == "mapname" then 9
      else if name == "clients" then 10 else if name == "fs_game" then 13 else -1
    case 8 =>
      if name == "checksum" then 1 else if name == "hostname" then 3
      else if name == "gamename" then 4 else if name == "gametype" then 6
      else if name == "protocol" then 12 else -1
    case 9 => if name == "challenge" then 0 else if name == "isPrivate" then 2 else -1
    case 10 => if name == "sv_running" then 17 else -1
    case 11 => if name == "wwwDownload" then 18 else -1
    case 12 => if name == "shortversion" then 16 else -1
    case 13 => if name == "sv_maxclients" then 5 else if name == "securityLevel" then 15 else -1
    case _ => -1
  }

  /** `parse_codInfo`: the record of all fields, each read from `codInfo`. */
  function ParseCodInfo(codInfo: string, toBool: string -> bool): (parsed: seq<(string, JsValue)>)
    ensures |parsed| == |Fields|
    ensures forall i :: 0 <= i < |Fields| ==> parsed[i].0 == Fields[i].name
  {
    seq(|Fields|, i requires 0 <= i < |Fields| =>
      (Fields[i].name, GetCodInfoValue(Fields[i].name, codInfo, Fields[i].asBool, Fields[i].asInt, toBool)))
  }

  /** The record read as an object: the only entry named after field `j` is
      entry `j`, and it holds what `get_codInfo_value` returns for that name
      with that field's flags. */
  lemma ParsedEntryForName(codInfo: string, toBool: string -> bool, i: nat, j: nat)
    requires i < |Fields| && j < |Fields|
    requires ParseCodInfo(codInfo, toBool)[i].0 == Fields[j].name
    ensures i == j
    ensures ParseCodInfo(codInfo, toBool)[i].1
      == GetCodInfoValue(Fields[j].name, codInfo, Fields[j].asBool, Fields[j].asInt, toBool)
  {
    FieldsWellFormed();
  }

  /** The kinds of value the record holds: a boolean exactly for a flag field
      whose key occurs, the number 0 exactly for an integer field whose key
      does not occur, and a string in every other case, so an integer field
      that is present is still a string. */
  lemma ParsedKinds(codInfo: string, toBool: string -> bool)
    ensures forall i :: 0 <= i < |Fields| ==>
      var found := codInfo != "" && Occurs(codInfo, Fields[i].name);
      && (ParseCodInfo(codInfo, toBool)[i].1.Bool? <==> Fields[i].asBool && found)
      && (ParseCodInfo(codInfo, toBool)[i].1.Num? <==> Fields[i].asInt && !found)
      && (ParseCodInfo(codInfo, toBool)[i].1.Num? ==> ParseCodInfo(codInfo, toBool)[i].1.n == 0)
  {
    FieldsWellFormed();
  }

  /** An empty info string gives the defaults: 0 for the three counters and
      "" for every other field, flags included. */
  lemma EmptyInfoDefaults(toBool: string -> bool)
    ensures forall i :: 0 <= i < |Fields| ==>
      ParseCodInfo("", toBool)[i].1 == (if Fields[i].asInt then Num(0) else Str(""))
  {
  }

  // ---------------------------------------------------------------------
  // Substring search against field lookup
  // ---------------------------------------------------------------------

  /** The info string a server sends for `fields`: `\key\value` per field. */
  function InfoString(fields: seq<(string, string)>): string {
    if fields == [] then "" else [Separator] + fields[0].0 + [Separator] + fields[0].1 + InfoString(fields[1..])
  }

  /** Neither keys nor values contain the separator. */
  predicate PlainFields(fields: seq<(string, string)>) {
    forall i :: 0 <= i < |fields| ==> Separator !in fields[i].0 && Separator !in fields[i].1
  }

  /** The value of the first field named `key`, the reference for a lookup. */
  function FirstValue(fields: seq<(string, string)>, key: string): Option<string> {
    if fields == [] then None
    else if fields[0].0 == key then Some(fields[0].1)
    else FirstValue(fields[1..], key)
  }

  /** `s.split('\\')`: the texts between separators, in order. */
  function Split(s: string): (parts: seq<string>)
    ensures |parts| >= 1
    ensures forall i :: 0 <= i < |parts| ==> Separator !in parts[i]
    decreases |s|
  {
    if s == [] then [""]
    else
      var rest := Split(s[1..]);
      if s[0] == Separator then [""] + rest
      else [[s[0]] + rest[0]] + rest[1..]
  }

  /** Keys and values alternating, as splitting an info string lists them. */
  function Flat(fields: seq<(string, string)>): seq<string> {
    if fields == [] then [] else [fields[0].0, fields[0].1] + Flat(fields[1..])
  }

  /** Looks `key` up among alternating keys and values, matching whole keys. */
  function LookupIn(parts: seq<string>, key: string): Option<string>
    decreases |parts|
  {
    if |parts| < 2 then None
    else if parts[0] == key then Some(parts[1])
    else LookupIn(parts[2..], key)
  }

  /** `get_codInfo_value` as evidently intended: the value of the field whose
      whole key is `key`, with the same defaults and conversions. */
  function GetCodInfoValueExact(key: string, codInfo: string, asBool: bool, asInt: bool, toBool: string -> bool): JsValue {
    match LookupIn(Split(codInfo)[1..], key)
    case None => if asInt then Num(0) else Str("")
    case Some(v) => if asBool then Bool(toBool(v)) else Str(v)
  }

  lemma {:induction false} SplitPlainPrefix(x: string, t: string)
    requires Separator !in x
    ensures Split(x + t) == [x + Split(t)[0]] + Split(t)[1..]
    decreases |x|
  {
    if x != [] {
      assert (x + t)[1..] == x[1..] + t;
      assert x[0] in x;
      SplitPlainPrefix(x[1..], t);
      assert [x[0]] + (x[1..] + Split(t)[0]) == x + Split(t)[0];
    } else {
      assert x + t == t;
      assert Split(t) == [Split(t)[0]] + Split(t)[1..];
      assert x + Split(t)[0] == Split(t)[0];
    }
  }

  /** Splitting one `\\key\\value` entry in front of a text that starts with
      a separator (or is empty) yields the key and the value as whole parts. */
  lemma SplitEntry(k: string, v: string, e: string)
    requires Separator !in k && Separator !in v && Split(e)[0] == ""
    ensures Split([Separator] + k + [Separator] + v + e) == ["", k, v] + Split(e)[1..]
  {
    var t := [Separator] + (v + e);
    SplitWhole(v, e);
    SplitAfterSeparator(v + e);
    SplitWhole(k, t);
    SplitAfterSeparator(k + t);
    Regroup([Separator], k, [Separator], v, e);
    ConsThree("", k, v, Split(e)[1..]);
  }

  lemma Regroup<T>(a: seq<T>, b: seq<T>, c: seq<T>, d: seq<T>, e: seq<T>)
    ensures a + b + c + d + e == a + (b + (c + (d + e)))
  {
  }

  /** A separator-free text in front of a text whose first part is empty
      becomes a whole part of its own. */
  lemma SplitWhole(x: string, t: string)
    requires Separator !in x && Split(t)[0] == ""
    ensures Split(x + t) == [x] + Split(t)[1..]
  {
    SplitPlainPrefix(x, t);
    assert x + "" == x;
  }

  /** A leading separator closes an empty first part. */
  lemma SplitAfterSeparator(t: string)
    ensures Split([Separator] + t) == [""] + Split(t)
    ensures Split([Separator] + t)[0] == "" && Split([Separator] + t)[1..] == Split(t)
  {
    assert ([Separator] + t)[1..] == t;
  }

  lemma ConsThree<T>(a: T, b: T, c: T, rest: seq<T>)
    ensures [a] + ([b] + ([c] + rest)) == [a, b, c] + rest
  {
  }

  /** The fields after the first are plain when all are. */
  lemma PlainTail(fields: seq<(string, string)>)
    requires fields != [] && PlainFields(fields)
    ensures PlainFields(fields[1..])
  {
    forall i | 0 <= i < |fields[1..]|
      ensures Separator !in fields[1..][i].0 && Separator !in fields[1..][i].1
    {
      assert fields[1..][i] == fields[i + 1];
    }
  }

  /** Splitting an info string recovers its keys and values, after the empty
      text before the leading separator. */
  lemma {:induction false} SplitInfoString(fields: seq<(string, string)>)
    requires PlainFields(fields)
    ensures Split(InfoString(fields)) == [""] + Flat(fields)
    decreases |fields|
  {
    if fields != [] {
      PlainTail(fields);
      SplitInfoString(fields[1..]);
      SplitEntry(fields[0].0, fields[0].1, InfoString(fields[1..]));
    }
  }

  lemma {:induction false} LookupFlat(fields: seq<(string, string)>, key: string)
    ensures LookupIn(Flat(fields), key) == FirstValue(fields, key)
    decreases |fields|
  {
    if fields != [] {
      var parts := Flat(fields);
      assert parts[2..] == Flat(fields[1..]);
      LookupFlat(fields[1..], key);
    }
  }

  /** The corrected reader returns, for every info string a server builds from
      plain fields, the value of the first field with exactly that key, and
      the defaults when there is none. */
  lemma ExactLookupRoundTrip(fields: seq<(string, string)>, key: string, asBool: bool, asInt: bool, toBool: string -> bool)
    requires PlainFields(fields)
    ensures GetCodInfoValueExact(key, InfoString(fields), asBool, asInt, toBool)
      == match FirstValue(fields, key)
         case None => if asInt then Num(0) else Str("")
         case Some(v) => if asBool then Bool(toBool(v)) else Str(v)
  {
    SplitInfoString(fields);
    assert Split(InfoString(fields))[1..] == Flat(fields);
    LookupFlat(fields, key);
  }

  /** A server that lists `sv_maxclients` before `clients`. */
  const MaxClientsFirst: seq<(string, string)> := [("sv_maxclients", "18"), ("clients", "3")]

  lemma MaxClientsFirstText()
    ensures InfoString(MaxClientsFirst) == "\\sv_maxclients\\18\\clients\\3"
    ensures PlainFields(MaxClientsFirst)
  {
    assert InfoString(MaxClientsFirst[1..][1..]) == "";
    assert Separator !in "sv_maxclients" && Separator !in "18";
    assert Separator !in "clients" && Separator !in "3";
  }

  /** The first occurrence of "clients" is the tail of "sv_maxclients". */
  lemma ClientsFirstFoundInsideMaxClients()
    ensures IndexOf("\\sv_maxclients\\18\\clients\\3", "clients") == 7
  {
    var s := "\\sv_maxclients\\18\\clients\\3";
    assert forall j :: 0 <= j < 7 ==> s[7..14][j] == "clients"[j];
    assert OccursAt(s, "clients", 7);
    forall i: nat | i < 7 ensures !OccursAt(s, "clients", i) {
      assert s[i..i + 7][0] == s[i];
    }
  }

  /** `get_codInfo_value('clients', ...)` finds "clients" inside
      "sv_maxclients" and returns the maximum, 18, where the server reports
      3 clients; the corrected reader returns 3. */
  lemma ClientsReadsMaxClients(toBool: string -> bool)
    ensures GetCodInfoValue("clients", InfoString(MaxClientsFirst), false, true, toBool) == Str("18")
    ensures GetCodInfoValueExact("clients", InfoString(MaxClientsFirst), false, true, toBool) == Str("3")
  {
    MaxClientsFirstText();
    var s := InfoString(MaxClientsFirst);
    ClientsFirstFoundInsideMaxClients();
    var r := GetCodInfoValue("clients", s, false, true, toBool);
    assert s[15..17] == "18";
    assert ValueAt(s, 15, "18");
    ValueAtUnique(s, 15, r.s, "18");
    ExactLookupRoundTrip(MaxClientsFirst, "clients", false, true, toBool);
  }
}
