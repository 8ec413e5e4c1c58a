/** The pure helpers of the recent-transactions page: the request URL built with
    `URLSearchParams`, the case-insensitive `highlight` of the filter address, and what one table
    row shows. */
module RecentPage {
  import opened Common
  import opened JsText
  import RecentTxs

  const ApiPath := "/api/recent?"

  /** The block counts the selector offers. */
  const CountOptions := [5, 10, 15, 20]

  // ------------------------------------------------- form encoding (URL standard)

  /** The UTF-8 bytes of one character. */
  function Utf8(c: char): (bs: seq<nat>)
    ensures 1 <= |bs| <= 4
    ensures forall k :: 0 <= k < |bs| ==> bs[k] < 256
    ensures |bs| == 1 <==> (c as int) < 0x80
    ensures |bs| == 1 ==> bs[0] == c as int
    ensures forall k :: 0 <= k < |bs| && |bs| > 1 ==> bs[k] >= 0x80
  {
    var n := c as int;
    if n < 0x80 then [n]
    else if n < 0x800 then [0xC0 + n / 64, 0x80 + n % 64]
    else if n < 0x10000 then [0xE0 + n / 4096, 0x80 + (n / 64) % 64, 0x80 + n % 64]
    else [0xF0 + n / 262144, 0x80 + (n / 4096) % 64, 0x80 + (n / 64) % 64, 0x80 + n % 64]
  }

  /** The bytes `application/x-www-form-urlencoded` leaves as they are: `*-._`, digits and ASCII letters. */
  predicate IsUnreservedByte(b: nat) {
    b == 0x2A || b == 0x2D || b == 0x2E || b == 0x5F
    || (0x30 <= b <= 0x39) || (0x41 <= b <= 0x5A) || (0x61 <= b <= 0x7A)
  }

  predicate IsUnreservedChar(c: char) {
    IsUnreservedByte(c as int)
  }

  function HexUpper(d: nat): (c: char)
    requires d < 16
    ensures c != '&' && c != '='
  {
    if d < 10 then (48 + d) as char else (55 + d) as char
  }

  /** One byte: kept, a space as `+`, anything else as `%XY`. */
  function EncodeByte(b: nat): (r: string)
    requires b < 256
    ensures '&' !in r && '=' !in r
    ensures IsUnreservedByte(b) ==> r == [b as char]
  {
    if IsUnreservedByte(b) then [b as char]
    else if b == 0x20 then "+"
    else ['%', HexUpper(b / 16), HexUpper(b % 16)]
  }

  function EncodeBytes(bs: seq<nat>): (r: string)
    requires forall k :: 0 <= k < |bs| ==> bs[k] < 256
    ensures '&' !in r && '=' !in r
    decreases |bs|
  {
    if bs == [] then [] else EncodeByte(bs[0]) + EncodeBytes(bs[1..])
  }

  /** The form-urlencoded serialization of one name or value. It never produces the two
      separators `&` and `=`, and it leaves text made of unreserved characters unchanged. */
  function FormEncode(s: string): (r: string)
    ensures '&' !in r && '=' !in r
    ensures (forall k :: 0 <= k < |s| ==> IsUnreservedChar(s[k])) ==> r == s
    decreases |s|
  {
    if s == [] then []
    else
      var bs := Utf8(s[0]);
      assert forall k :: 0 < k < |s| ==> s[k] == s[1..][k - 1];
      assert IsUnreservedChar(s[0]) ==> EncodeBytes(bs) == [s[0]] by {
        if IsUnreservedChar(s[0]) {
          assert |bs| == 1 && bs[0] == s[0] as int;
          assert EncodeBytes(bs) == EncodeByte(bs[0]) + EncodeBytes([]);
        }
      }
      EncodeBytes(bs) + FormEncode(s[1..])
  }

  function EncodePair(entry: (string, string)): string {
    FormEncode(entry.0) + "=" + FormEncode(entry.1)
  }

  /** `URLSearchParams.prototype.toString`: the encoded pairs joined with `&`. */
  function Serialize(entries: seq<(string, string)>): string {
    Join(seq(|entries|, k requires 0 <= k < |entries| => EncodePair(entries[k])), '&')
  }

  /** Reading the serialized query back: splitting at `&` and then at `=` gives every encoded
      name and value back, in order. */
  lemma QueryRoundTrip(entries: seq<(string, string)>)
    requires |entries| >= 1
    ensures var parts := Split(Serialize(entries), '&');
            |parts| == |entries|
            && forall k :: 0 <= k < |entries| ==>
                 Split(parts[k], '=') == [FormEncode(entries[k].0), FormEncode(entries[k].1)]
  {
    var pairs := seq(|entries|, k requires 0 <= k < |entries| => EncodePair(entries[k]));
    forall k | 0 <= k < |pairs| ensures '&' !in pairs[k] {
      assert pairs[k] == FormEncode(entries[k].0) + ("=" + FormEncode(entries[k].1));
    }
    SplitJoin(pairs, '&');
    forall k | 0 <= k < |entries|
      ensures Split(pairs[k], '=') == [FormEncode(entries[k].0), FormEncode(entries[k].1)]
    {
      var name, value := FormEncode(entries[k].0), FormEncode(entries[k].1);
      assert Join([name, value], '=') == pairs[k] by {
        assert Join([value], '=') == value;
      }
      SplitJoin([name, value], '=');
    }
  }

  // ------------------------------------------------------- URLSearchParams

  /** Whether some pair has the given name. */
  predicate HasName(entries: seq<(string, string)>, name: string) {
    exists k :: 0 <= k < |entries| && entries[k].0 == name
  }

  /** `URLSearchParams.prototype.get`: the value of the first pair with that name. */
  function Lookup(entries: seq<(string, string)>, name: string): Option<string>
    decreases |entries|
  {
    if entries == [] then None
    else if entries[0].0 == name then Some(entries[0].1)
    else Lookup(entries[1..], name)
  }

  function RemoveName(entries: seq<(string, string)>, name: string): (r: seq<(string, string)>)
    ensures !HasName(r, name)
    ensures forall other :: other != name ==> Lookup(r, other) == Lookup(entries, other)
    decreases |entries|
  {
    if entries == [] then []
    else
      var rest := RemoveName(entries[1..], name);
      if entries[0].0 == name then rest
      else
        assert forall k :: 0 < k < |rest| + 1 ==> ([entries[0]] + rest)[k] == rest[k - 1];
        [entries[0]] + rest
  }

  /** `URLSearchParams.prototype.set`: the first pair with that name takes the value and the other
      pairs with that name go; with no such pair, the new pair is appended. */
  function SetEntry(entries: seq<(string, string)>, name: string, value: string): (r: seq<(string, string)>)
    decreases |entries|
  {
    if entries == [] then [(name, value)]
    else if entries[0].0 == name then [(name, value)] + RemoveName(entries[1..], name)
    else [entries[0]] + SetEntry(entries[1..], name, value)
  }

  /** After `set(name, value)`, `get(name)` is `value` and every other name reads as before. */
  lemma {:induction false} SetThenLookup(entries: seq<(string, string)>, name: string, value: string, other: string)
    ensures Lookup(SetEntry(entries, name, value), name) == Some(value)
    ensures other != name ==> Lookup(SetEntry(entries, name, value), other) == Lookup(entries, other)
    decreases |entries|
  {
    if entries != [] && entries[0].0 != name {
      SetThenLookup(entries[1..], name, value, other);
    }
  }

  /** The page's query parameters object. */
  class SearchParams {
    var entries: seq<(string, string)>

    constructor ()
      ensures entries == []
    {
      entries := [];
    }

    method Set(name: string, value: string)
      modifies this
      ensures entries == SetEntry(old(entries), name, value)
    {
      entries := SetEntry(entries, name, value);
    }

    function ToString(): string
      reads this
    {
      Serialize(entries)
    }
  }

  /** The parameters the page asks for: `count`, then `address` when the trimmed address is not empty. */
  function QueryEntries(count: int, address: string): (entries: seq<(string, string)>)
    ensures |entries| >= 1
    ensures Lookup(entries, "count") == Some(IntToString(count))
    ensures Lookup(entries, "address") == if Trim(address) != "" then Some(Trim(address)) else None
  {
    [("count", IntToString(count))] + if Trim(address) != "" then [("address", Trim(address))] else []
  }

  /** The memoised `apiUrl`: a fresh parameters object, `count` set, `address` set when the trimmed
      address is not blank, then serialized after the route's path. */
  method ApiUrl(count: int, address: string) returns (url: string)
    ensures url == ApiPath + Serialize(QueryEntries(count, address))
  {
    var params := new SearchParams();
    params.Set("count", IntToString(count));
    if Trim(address) != "" {
      params.Set("address", Trim(address));
    }
    url := ApiPath + params.ToString();
  }

  /** For a non-negative count and a recipient made of unreserved characters (such as a hex
      address), the URL carries both exactly as typed, the address trimmed. */
  lemma ApiUrlVerbatim(count: nat, address: string)
    requires Trim(address) != ""
    requires forall k :: 0 <= k < |Trim(address)| ==> IsUnreservedChar(Trim(address)[k])
    ensures Serialize(QueryEntries(count, address))
            == "count" + "=" + NatToDecimal(count) + "&" + "address" + "=" + Trim(address)
  {
    var digits := NatToDecimal(count);
    var a := Trim(address);
    var first, second := ("count", digits), ("address", a);
    assert forall k :: 0 <= k < |first.0| ==> IsUnreservedChar(first.0[k]) by {
      UnreservedText(first.0);
    }
    assert forall k :: 0 <= k < |second.0| ==> IsUnreservedChar(second.0[k]) by {
      UnreservedText(second.0);
    }
    assert forall k :: 0 <= k < |digits| ==> IsUnreservedChar(digits[k]) by {
      assert forall k :: 0 <= k < |digits| ==> IsDigit(digits[k]);
    }
    assert QueryEntries(count, address) == [first, second];
    SerializeTwo(first, second);
  }

  lemma SerializeTwo(first: (string, string), second: (string, string))
    requires forall k :: 0 <= k < |first.0| ==> IsUnreservedChar(first.0[k])
    requires forall k :: 0 <= k < |first.1| ==> IsUnreservedChar(first.1[k])
    requires forall k :: 0 <= k < |second.0| ==> IsUnreservedChar(second.0[k])
    requires forall k :: 0 <= k < |second.1| ==> IsUnreservedChar(second.1[k])
    ensures Serialize([first, second]) == first.0 + "=" + first.1 + "&" + second.0 + "=" + second.1
  {
    var entries := [first, second];
    var pairs := seq(2, k requires 0 <= k < 2 => EncodePair(entries[k]));
    var p0, p1 := first.0 + "=" + first.1, second.0 + "=" + second.1;
    assert pairs == [p0, p1] by {
      assert EncodePair(first) == p0;
      assert EncodePair(second) == p1;
      assert pairs[0] == p0 && pairs[1] == p1;
    }
    assert Join([p0, p1], '&') == p0 + "&" + p1 by {
      assert [p0, p1][1..] == [p1];
      assert Join([p1], '&') == p1;
    }
  }

  /** Text whose every character is unreserved, checked one character at a time. */
  predicate AllUnreserved(s: string)
    decreases |s|
  {
    s == [] || (IsUnreservedChar(s[0]) && AllUnreserved(s[1..]))
  }

  lemma {:induction false} UnreservedText(s: string)
    requires AllUnreserved(s)
    ensures forall k :: 0 <= k < |s| ==> IsUnreservedChar(s[k])
    decreases |s|
  {
    if s != [] {
      UnreservedText(s[1..]);
      assert forall k :: 0 < k < |s| ==> s[k] == s[1..][k - 1];
    }
  }

  /** Every count the selector offers is inside the handler's range, so the handler uses it unchanged. */
  lemma CountOptionsUnclamped()
    ensures forall k :: 0 <= k < |CountOptions| ==> RecentTxs.ClampCount(Some(CountOptions[k])) == CountOptions[k]
  {
  }

  // ------------------------------------------------------------ highlight

  /** `address.trim().toLowerCase()` */
  function FilterAddr(address: string): string {
    Lower(Trim(address))
  }

  /** `highlight(val)`: the filter is not blank, the value is present and not empty, and the two are
      equal once lower-cased. */
  function Highlight(address: string, val: Option<string>): (hit: bool)
    ensures hit <==> Trim(address) != "" && val.Some? && Lower(val.value) == Lower(Trim(address))
    ensures Trim(address) == "" || val == None || val == Some("") ==> !hit
  {
    var filterAddr := FilterAddr(address);
    filterAddr != "" && val.Some? && val.value != "" && Lower(val.value) == filterAddr
  }

  /** The case of either side never matters. */
  lemma HighlightIgnoresCase(address: string, v: string)
    ensures Highlight(address, Some(v)) == Highlight(Lower(address), Some(Lower(v)))
  {
    var t := Trim(address);
    TrimLower(address);
    LowerIdempotent(v);
    LowerIdempotent(t);
    assert |Lower(t)| == |t|;
  }

  /** A transaction as the page receives it: every field but the hash may be missing. */
  datatype Row = Row(hash: string, from: Option<string>, to: Option<string>, value: Option<string>, blockNumber: Option<string>)

  /** What one table row shows. */
  datatype RowView = RowView(highlighted: bool, fromHit: bool, toHit: bool, fromText: string, toText: string, valueText: string, blockText: string)

  /** A party cell: the address when it is present and not empty, `-` otherwise. */
  function PartyText(v: Option<string>): (t: string)
    ensures t != ""
    ensures t == "-" <==> v == None || v == Some("") || v == Some("-")
    ensures t != "-" ==> v == Some(t)
  {
    if v.Some? && v.value != "" then v.value else "-"
  }

  /** One table row: highlighted when either party matches; a missing value shows `0`, a missing
      block number `-`. */
  function ViewRow(address: string, row: Row): (view: RowView)
    ensures view.highlighted <==> Highlight(address, row.from) || Highlight(address, row.to)
    ensures view.valueText == if row.value.Some? then row.value.value else "0"
    ensures view.blockText == if row.blockNumber.Some? then row.blockNumber.value else "-"
    ensures view.fromText == if row.from.Some? && row.from.value != "" then row.from.value else "-"
    ensures view.toText == if row.to.Some? && row.to.value != "" then row.to.value else "-"
  {
    var fromHit := Highlight(address, row.from);
    var toHit := Highlight(address, row.to);
    RowView(fromHit || toHit, fromHit, toHit, PartyText(row.from), PartyText(row.to),
            match row.value case None => "0" case Some(v) => v,
            match row.blockNumber case None => "-" case Some(b) => b)
  }

  /** The row the page builds from one record of the handler's response. */
  function RowOf(r: RecentTxs.TxRecord): Row {
    Row(r.hash, Some(r.from), r.to, r.value, r.blockNumber)
  }

  /** The page sends the trimmed address; the handler keeps a record exactly when the page
      highlights its row, so every row of a filtered response is highlighted. */
  lemma FilterMirrorsHighlight(address: string, r: RecentTxs.TxRecord)
    requires Trim(address) != ""
    ensures RecentTxs.Matches(RecentTxs.NormalizeAddress(Some(Trim(address))), r)
            <==> ViewRow(address, RowOf(r)).highlighted
  {
    TrimIdempotent(address);
    TrimLower(Trim(address));
    assert RecentTxs.NormalizeAddress(Some(Trim(address))) == Some(Lower(Trim(address)));
  }
}
