/** chiaki_http_header_parse of lib/src/http.c: the fields of a header as pointers into the buffer it overwrites with
    terminators. */
module HttpFields {
  import opened Options
  import opened Sequences

  const NUL := '\0'

  datatype Field = Field(key: string, value: string)

  predicate EndsValue(c: char) {
    c == NUL || c == '\r' || c == '\n'
  }

  predicate EndsKey(c: char) {
    c == ':' || EndsValue(c)
  }

  /** The length of the key, or of the rest of the value, that a text begins with */
  function KeyLength(s: string): (n: nat)
    ensures n <= |s| && (n < |s| ==> EndsKey(s[n]))
    ensures forall k | 0 <= k < n :: !EndsKey(s[k])
  {
    if s == "" || EndsKey(s[0]) then 0 else 1 + KeyLength(s[1..])
  }

  function ValueLength(s: string): (n: nat)
    ensures n <= |s| && (n < |s| ==> EndsValue(s[n]))
    ensures forall k | 0 <= k < n :: !EndsValue(s[k])
  {
    if s == "" || EndsValue(s[0]) then 0 else 1 + ValueLength(s[1..])
  }

  lemma KeyLengthIs(s: string, n: nat)
    requires n <= |s| && (n < |s| ==> EndsKey(s[n])) && forall k | 0 <= k < n :: !EndsKey(s[k])
    ensures KeyLength(s) == n
  {}

  lemma ValueLengthIs(s: string, n: nat)
    requires n <= |s| && (n < |s| ==> EndsValue(s[n])) && forall k | 0 <= k < n :: !EndsValue(s[k])
    ensures ValueLength(s) == n
  {}

  /** Where the value starts behind a colon: one space is skipped. None if the text ends first. */
  function ValueStart(s: string, colon: nat): (p: Option<nat>)
    requires colon < |s|
    ensures p.Some? ==> colon < p.value < |s|
  {
    var j := colon + 1;
    if j == |s| then None
    else if s[j] == ' ' then (if j + 1 == |s| then None else Some(j + 1))
    else Some(j)
  }

  /** The C string that the value's bytes make: nothing ever looks at the first of them. */
  function ValueString(v: string): string
    requires v != ""
  {
    if v[0] == NUL then "" else v
  }

  /** A header line by line, the last field first. A line of no more than one character without a colon is skipped, a
      longer one or an empty key is an error, and whatever comes before the end of the text or a terminator without a
      line end of its own is dropped. */
  function Parse(s: string): Option<seq<Field>>
    decreases |s|
  {
    var n := KeyLength(s);
    if n == |s| || s[n] == NUL then Some([])
    else if s[n] != ':' then (if n >= 2 then None else Parse(s[n + 1..]))
    else if n == 0 then None
    else
      match ValueStart(s, n)
      case None => None
      case Some(p) =>
        var m := p + 1 + ValueLength(s[p + 1..]);
        if m == |s| || s[m] == NUL then Some([])
        else AndThen(Parse(s[m + 1..]), [Field(s[..n], ValueString(s[p..m]))])
  }

  function AndThen(later: Option<seq<Field>>, earlier: seq<Field>): Option<seq<Field>> {
    match later
    case None => None
    case Some(fields) => Some(fields + earlier)
  }

  // ---------------------------------------------------------------- printing and parsing

  predicate CleanKey(key: string) {
    key != "" && forall k | 0 <= k < |key| :: !EndsKey(key[k])
  }

  /** Not even a line end or colon as the first character disturbs a value. */
  predicate CleanValue(value: string) {
    value != "" && value[0] != NUL && forall k | 1 <= k < |value| :: !EndsValue(value[k])
  }

  predicate Clean(f: Field) {
    CleanKey(f.key) && CleanValue(f.value)
  }

  function Line(f: Field): string {
    f.key + ": " + f.value + "\r\n"
  }

  function Printed(fields: seq<Field>): string {
    if fields == [] then "" else Line(fields[0]) + Printed(fields[1..])
  }

  lemma ParseLineEnd(s: string)
    requires s != "" && (s[0] == '\r' || s[0] == '\n')
    ensures Parse(s) == Parse(s[1..])
  {
    KeyLengthIs(s, 0);
  }

  lemma ParseFieldAt(s: string, n: nat, p: nat, m: nat)
    requires n == KeyLength(s) && 0 < n < p < m < |s| && s[n] == ':' && ValueStart(s, n) == Some(p)
    requires ValueLength(s[p + 1..]) == m - p - 1 && s[m] != NUL
    ensures Parse(s) == AndThen(Parse(s[m + 1..]), [Field(s[..n], ValueString(s[p..m]))])
  {
    hide KeyLength, ValueLength, ValueStart, ValueString, AndThen;
  }

  /** A line with a clean key is read up to the value's line end, whatever the value begins with. */
  lemma ParseLine(key: string, value: string, end: char, rest: string)
    requires CleanKey(key) && (end == '\r' || end == '\n')
    requires value != "" && forall k | 1 <= k < |value| :: !EndsValue(value[k])
    ensures Parse(key + ": " + value + [end] + rest) == AndThen(Parse(rest), [Field(key, ValueString(value))])
  {
    hide EndsKey, EndsValue, ValueString, Parse, KeyLength, ValueLength;
    var s := key + ": " + value + [end] + rest;
    var n, p, m := |key|, |key| + 2, |key| + 2 + |value|;
    Ends();
    LineParts(key, value, end, rest);
    assert forall k | 0 <= k < n :: s[k] == s[..n][k] == key[k];
    KeyLengthIs(s, n);
    ValueBefore(value[1..], end, rest);
    ParseFieldAt(s, n, p, m);
  }

  lemma LineParts(key: string, value: string, end: char, rest: string)
    requires value != ""
    ensures var s, n, p, m := key + ": " + value + [end] + rest, |key|, |key| + 2, |key| + 2 + |value|;
      && |s| > m && s[..n] == key && s[n] == ':' && s[n + 1] == ' ' && s[p..m] == value && s[m] == end
      && s[m + 1..] == rest && s[p + 1..] == value[1..] + ([end] + rest)
  {
  }

  lemma ValueBefore(value: string, end: char, rest: string)
    requires EndsValue(end) && forall k | 0 <= k < |value| :: !EndsValue(value[k])
    ensures ValueLength(value + ([end] + rest)) == |value|
  {
    hide EndsValue;
    ValueLengthIs(value + ([end] + rest), |value|);
  }

  lemma Ends()
    ensures EndsKey(':') && EndsValue('\r') && EndsValue('\n')
  {}

  lemma ParseField(f: Field, rest: string)
    requires Clean(f)
    ensures Parse(Line(f) + rest) == AndThen(Parse(rest), [f])
  {
    hide Parse;
    assert Line(f) + rest == f.key + ": " + f.value + ['\r'] + ("\n" + rest);
    ParseLine(f.key, f.value, '\r', "\n" + rest);
    ParseLineEnd("\n" + rest);
    assert ("\n" + rest)[1..] == rest;
  }

  /** An empty value is not an error: it becomes the carriage return behind it. */
  lemma ParseEmptyValue(key: string, rest: string)
    requires CleanKey(key)
    ensures Parse(Line(Field(key, "")) + rest) == AndThen(Parse(rest), [Field(key, "\r")])
  {
    hide Parse;
    assert Line(Field(key, "")) + rest == key + ": " + "\r" + ['\n'] + rest;
    ParseLine(key, "\r", '\n', rest);
  }

  lemma KeyIn(key: string, c: char, rest: string)
    requires (forall k | 0 <= k < |key| :: !EndsKey(key[k])) && EndsKey(c)
    ensures var s := key + ([c] + rest); KeyLength(s) == |key| && s[|key|] == c && s[|key| + 1..] == rest
    ensures KeyLength(key) == |key|
  {
    hide EndsKey;
    KeyLengthIs(key + ([c] + rest), |key|);
    KeyLengthIs(key, |key|);
  }

  /** A line without a colon is an error, except that one of no more than one character is skipped. */
  lemma ParseNoColon(line: string, end: char, rest: string)
    requires (forall k | 0 <= k < |line| :: !EndsKey(line[k])) && (end == '\r' || end == '\n')
    ensures Parse(line + ([end] + rest)) == if |line| >= 2 then None else Parse(rest)
  {
    EndsAre(end);
    hide EndsKey, KeyLength, ValueLength, ValueStart;
    KeyIn(line, end, rest);
  }

  /** A line that begins with a colon is an error, and so is a text that ends behind a key's colon, or behind the space
      there. */
  lemma ParseNothingThere(key: string, rest: string)
    requires CleanKey(key)
    ensures Parse(":" + rest).None? && Parse(key + ":").None? && Parse(key + ": ").None?
  {
    hide EndsKey, KeyLength, ValueLength;
    Ends();
    KeyIn("", ':', rest);
    assert "" + ([':'] + rest) == ":" + rest;
    KeyIn(key, ':', "");
    assert key + ([':'] + "") == key + ":";
    KeyIn(key, ':', " ");
    assert key + ([':'] + " ") == key + ": ";
  }

  /** A text that ends inside a line, or has a terminator there, ends in front of that line. */
  lemma ParseUnfinished(key: string, value: string, rest: string)
    requires CleanKey(key) && value != "" && forall k | 1 <= k < |value| :: !EndsValue(value[k])
    ensures Parse(key) == Parse(key + ([NUL] + rest)) == Some([])
    ensures Parse(key + ": " + value) == Parse(key + ": " + value + [NUL] + rest) == Some([])
  {
    hide EndsKey, EndsValue, KeyLength, ValueLength, ValueString;
    Terminates();
    KeyIn(key, NUL, rest);
    UnfinishedValue(key, value, "");
    assert key + ": " + value + "" == key + ": " + value;
    UnfinishedValue(key, value, [NUL] + rest);
    assert key + ": " + value + [NUL] + rest == key + ": " + value + ([NUL] + rest);
  }

  lemma Terminates()
    ensures EndsKey(NUL) && EndsValue(NUL)
  {}

  lemma UnfinishedValue(key: string, value: string, rest: string)
    requires CleanKey(key) && value != "" && forall k | 1 <= k < |value| :: !EndsValue(value[k])
    requires rest == "" || rest[0] == NUL
    ensures Parse(key + ": " + value + rest) == Some([])
  {
    hide EndsKey, EndsValue, ValueString, Parse, KeyLength, ValueLength;
    var s, n, p := key + ": " + value + rest, |key|, |key| + 2;
    Ends();
    Terminates();
    UnfinishedParts(key, value, rest);
    KeyIn(key, ':', " " + value + rest);
    assert s == key + ([':'] + (" " + value + rest));
    ValueLengthIs(value[1..] + rest, |value| - 1);
    UnfinishedAt(s, n, p, p + |value|);
  }

  lemma UnfinishedParts(key: string, value: string, rest: string)
    requires value != ""
    ensures var s, p := key + ": " + value + rest, |key| + 2;
      && |s| == p + |value| + |rest| && s[|key|] == ':' && s[|key| + 1] == ' ' && s[p + 1..] == value[1..] + rest
      && (rest != "" ==> s[p + |value|] == rest[0])
  {}

  lemma UnfinishedAt(s: string, n: nat, p: nat, m: nat)
    requires n == KeyLength(s) && 0 < n < p < m <= |s| && s[n] == ':' && ValueStart(s, n) == Some(p)
    requires ValueLength(s[p + 1..]) == m - p - 1 && (m == |s| || s[m] == NUL)
    ensures Parse(s) == Some([])
  {
    hide KeyLength, ValueLength, ValueStart, ValueString, AndThen;
  }

  /** The space behind the colon is not needed. */
  lemma ParseTight(key: string, value: string, end: char, rest: string)
    requires CleanKey(key) && (end == '\r' || end == '\n')
    requires value != "" && value[0] != ' ' && forall k | 1 <= k < |value| :: !EndsValue(value[k])
    ensures Parse(key + ":" + value + [end] + rest) == AndThen(Parse(rest), [Field(key, ValueString(value))])
  {
    hide EndsKey, EndsValue, KeyLength, ValueLength, ValueString, Parse;
    var s, n, p := key + ":" + value + [end] + rest, |key|, |key| + 1;
    var m := p + |value|;
    Ends();
    KeyIn(key, ':', value + [end] + rest);
    assert s == key + ([':'] + (value + [end] + rest));
    assert s[..n] == key && s[p] == value[0] && s[m] == end && s[p..m] == value && s[m + 1..] == rest;
    ValueBefore(value[1..], end, rest);
    assert s[p + 1..] == value[1..] + ([end] + rest);
    ParseFieldAt(s, n, p, m);
  }

  lemma ThenThen(later: Option<seq<Field>>, a: seq<Field>, b: seq<Field>)
    ensures AndThen(AndThen(later, a), b) == AndThen(later, a + b)
  {
    if later.Some? { assert later.value + a + b == later.value + (a + b); }
  }

  /** Printing clean fields in front of any text and parsing it adds exactly these fields, reversed. */
  lemma {:induction false} ParsePrinted(fields: seq<Field>, rest: string)
    requires forall i | 0 <= i < |fields| :: Clean(fields[i])
    ensures Parse(Printed(fields) + rest) == AndThen(Parse(rest), Reversed(fields))
  {
    hide Parse, Clean, Line;
    if fields == [] {
      assert Printed(fields) + rest == rest;
      if Parse(rest).Some? { assert Parse(rest).value + [] == Parse(rest).value; }
    } else {
      var more := Printed(fields[1..]) + rest;
      assert Printed(fields) + rest == Line(fields[0]) + more;
      ParseField(fields[0], more);
      ParsePrinted(fields[1..], rest);
      ThenThen(Parse(rest), Reversed(fields[1..]), [fields[0]]);
    }
  }

  lemma CutValue(s: string, p: nat)
    requires p < |s|
    ensures var v := ValueString(s[p..p + 1 + ValueLength(s[p + 1..])]);
      v == "" || CleanValue(v)
  {
    hide EndsValue;
    var v := s[p..p + 1 + ValueLength(s[p + 1..])];
    assert forall k | 1 <= k < |v| :: v[k] == s[p + 1..][k - 1];
  }

  /** What comes out of the parser always has clean keys, and values that are clean or empty. */
  lemma {:induction false} ParsedAreClean(s: string)
    ensures Parse(s).Some? ==> forall f <- Parse(s).value :: CleanKey(f.key) && (f.value == "" || CleanValue(f.value))
    decreases |s|
  {
    hide EndsKey, EndsValue, CleanValue, ValueString, KeyLength, ValueLength, ValueStart;
    var n := KeyLength(s);
    if n < |s| && s[n] != NUL {
      if s[n] != ':' {
        ParsedAreClean(s[n + 1..]);
      } else if n > 0 && ValueStart(s, n).Some? {
        var p := ValueStart(s, n).value;
        var m := p + 1 + ValueLength(s[p + 1..]);
        if m < |s| {
          ParsedAreClean(s[m + 1..]);
          CutValue(s, p);
          assert CleanKey(s[..n]);
        }
      }
    }
  }

  lemma {:induction false} NoValueEmpty(fields: seq<Field>)
    requires forall i | 0 <= i < |fields| ::
               CleanKey(fields[i].key) && (fields[i].value == "" || CleanValue(fields[i].value))
    requires Parse(Printed(fields)) == Some(Reversed(fields))
    ensures forall i | 0 <= i < |fields| :: Clean(fields[i])
  {
    hide Parse, CleanKey, CleanValue, Line;
    if fields != [] {
      var f, rest := fields[0], fields[1..];
      assert Printed(fields) == Line(f) + Printed(rest);
      if f.value == "" {
        assert f == Field(f.key, "");
        ParseEmptyValue(f.key, Printed(rest));
        LastField(Parse(Printed(rest)), Field(f.key, "\r"), Reversed(rest), f);
      } else {
        ParseField(f, Printed(rest));
        LastField(Parse(Printed(rest)), f, Reversed(rest), f);
        NoValueEmpty(rest);
      }
    }
  }

  lemma LastField(later: Option<seq<Field>>, f: Field, fields: seq<Field>, g: Field)
    requires AndThen(later, [f]) == Some(fields + [g])
    ensures f == g && later == Some(fields)
  {
    var all := later.value + [f];
    assert all == fields + [g];
    assert all[|all| - 1] == f && all[..|all| - 1] == later.value;
    assert (fields + [g])[..|fields|] == fields;
  }

  /** The round trip holds exactly for clean fields: printed and parsed, they come back reversed. */
  lemma RoundTrip(fields: seq<Field>)
    ensures Parse(Printed(fields)) == Some(Reversed(fields)) <==> forall i | 0 <= i < |fields| :: Clean(fields[i])
  {
    hide Parse, CleanKey, CleanValue, Line, Clean, Printed, Reversed;
    if forall i | 0 <= i < |fields| :: Clean(fields[i]) {
      assert Printed(fields) + "" == Printed(fields);
      ParseNothing();
      ParsePrinted(fields, "");
      assert [] + Reversed(fields) == Reversed(fields);
    }
    if Parse(Printed(fields)) == Some(Reversed(fields)) {
      AllAlmostClean(fields);
      NoValueEmpty(fields);
    }
  }

  lemma AllAlmostClean(fields: seq<Field>)
    requires Parse(Printed(fields)) == Some(Reversed(fields))
    ensures forall i | 0 <= i < |fields| ::
              CleanKey(fields[i].key) && (fields[i].value == "" || CleanValue(fields[i].value))
  {
    hide Parse, CleanKey, CleanValue, Printed;
    ParsedAreClean(Printed(fields));
    forall i | 0 <= i < |fields|
      ensures CleanKey(fields[i].key) && (fields[i].value == "" || CleanValue(fields[i].value))
    {
      InReversed(fields, i);
    }
  }

  lemma ParseNothing()
    ensures Parse("") == Some([])
  {}

  // ---------------------------------------------------------------- the parser on its buffer

  /** struct chiaki_http_header_t, with its pointers as positions in the buffer */
  datatype Entry = Entry(key: nat, value: nat)

  /** A C string at some position of the buffer, with its terminator in front of `limit` */
  ghost predicate StringAt(buf: seq<char>, at: nat, str: string, limit: nat) {
    && at + |str| < limit <= |buf|
    && buf[at..at + |str|] == str && buf[at + |str|] == NUL
    && forall k | 0 <= k < |str| :: str[k] != NUL
  }

  ghost predicate FieldAt(buf: seq<char>, e: Entry, f: Field, limit: nat) {
    StringAt(buf, e.key, f.key, limit) && StringAt(buf, e.value, f.value, limit)
  }

  ghost predicate FieldsAt(buf: seq<char>, entries: seq<Entry>, fields: seq<Field>, limit: nat) {
    |entries| == |fields| && forall i | 0 <= i < |entries| :: FieldAt(buf, entries[i], fields[i], limit)
  }

  /** Strings stay as they are when the buffer changes behind them only. */
  lemma StringStays(buf: seq<char>, newBuf: seq<char>, at: nat, str: string, limit: nat, newLimit: nat)
    requires StringAt(buf, at, str, limit) && limit <= newLimit <= |newBuf| == |buf| && buf[..limit] == newBuf[..limit]
    ensures StringAt(newBuf, at, str, newLimit)
  {
    assert buf[at..at + |str|] == buf[..limit][at..at + |str|];
    assert newBuf[at..at + |str|] == newBuf[..limit][at..at + |str|];
    assert buf[at + |str|] == buf[..limit][at + |str|];
  }

  lemma FieldsStay(buf: seq<char>, newBuf: seq<char>, entries: seq<Entry>, fields: seq<Field>, limit: nat,
                   newLimit: nat)
    requires FieldsAt(buf, entries, fields, limit)
    requires limit <= newLimit <= |newBuf| == |buf| && buf[..limit] == newBuf[..limit]
    ensures FieldsAt(newBuf, entries, fields, newLimit)
  {
    hide StringAt;
    forall i | 0 <= i < |entries| ensures FieldAt(newBuf, entries[i], fields[i], newLimit) {
      assert FieldAt(buf, entries[i], fields[i], limit);
      StringStays(buf, newBuf, entries[i].key, fields[i].key, limit, newLimit);
      StringStays(buf, newBuf, entries[i].value, fields[i].value, limit, newLimit);
    }
  }

  /** Nothing but terminators is written. */
  ghost predicate OnlyTerminated(was: string, buf: seq<char>) {
    |buf| == |was| && forall k | 0 <= k < |was| :: buf[k] == was[k] || buf[k] == NUL
  }

  /** Inside a key that starts at keyPtr, the scan being at i */
  ghost predicate InKey(text: string, buf: seq<char>, keyPtr: nat, i: nat) {
    && keyPtr <= i <= |text| == |buf|
    && buf[keyPtr..] == text[keyPtr..]
    && forall k | keyPtr <= k < i :: !EndsKey(text[k])
  }

  /** Inside a value: the colon of its line is overwritten. */
  ghost predicate InValue(text: string, buf: seq<char>, keyPtr: nat, colon: nat, valuePtr: nat, i: nat) {
    && keyPtr < colon < valuePtr < i <= |text| == |buf|
    && text[colon] == ':' && KeyLength(text[keyPtr..]) == colon - keyPtr
    && ValueStart(text[keyPtr..], colon - keyPtr) == Some(valuePtr - keyPtr)
    && buf[keyPtr..] == text[keyPtr..][colon - keyPtr := NUL]
    && forall k | valuePtr < k < i :: !EndsValue(text[k])
  }

  lemma KeyEnds(text: string, buf: seq<char>, keyPtr: nat, i: nat)
    requires InKey(text, buf, keyPtr, i) && (i < |text| ==> EndsKey(text[i]))
    ensures KeyLength(text[keyPtr..]) == i - keyPtr
  {
    hide EndsKey, KeyLength;
    var s := text[keyPtr..];
    assert forall k | 0 <= k < i - keyPtr :: s[k] == text[keyPtr + k];
    KeyLengthIs(s, i - keyPtr);
  }

  /** Where the value behind the colon at i starts, in terms of the whole text */
  function ValuePtr(text: string, i: nat): Option<nat>
    requires i < |text|
  {
    if i + 1 == |text| then None
    else if text[i + 1] == ' ' then (if i + 2 == |text| then None else Some(i + 2))
    else Some(i + 1)
  }

  lemma AtColon(text: string, buf: seq<char>, keyPtr: nat, i: nat)
    requires InKey(text, buf, keyPtr, i) && i < |text| && text[i] == ':'
    ensures keyPtr == i || ValuePtr(text, i).None? ==> Parse(text[keyPtr..]).None?
    ensures i + 1 < |text| ==> buf[i + 1] == text[i + 1]
    ensures ValuePtr(text, i).Some? && keyPtr < i ==>
      InValue(text, buf[i := NUL], keyPtr, i, ValuePtr(text, i).value, ValuePtr(text, i).value + 1)
  {
    hide KeyLength, ValueLength;
    KeyEnds(text, buf, keyPtr, i);
    var s := text[keyPtr..];
    assert i + 1 < |text| ==> s[i + 1 - keyPtr] == text[i + 1] && buf[keyPtr..][i + 1 - keyPtr] == buf[i + 1];
    assert buf[i := NUL][keyPtr..] == buf[keyPtr..][i - keyPtr := NUL];
  }

  lemma KeyContinues(text: string, buf: seq<char>, keyPtr: nat, i: nat)
    requires InKey(text, buf, keyPtr, i) && i < |text|
    ensures buf[i] == text[i]
    ensures !EndsKey(text[i]) ==> InKey(text, buf, keyPtr, i + 1)
    ensures InKey(text, buf, i + 1, i + 1)
  {
    hide EndsKey;
    assert buf[keyPtr..][i - keyPtr] == text[keyPtr..][i - keyPtr];
    assert buf[keyPtr..][i + 1 - keyPtr..] == buf[i + 1..];
    assert text[keyPtr..][i + 1 - keyPtr..] == text[i + 1..];
  }

  lemma ValueContinues(text: string, buf: seq<char>, keyPtr: nat, colon: nat, valuePtr: nat, i: nat)
    requires InValue(text, buf, keyPtr, colon, valuePtr, i) && i < |text|
    ensures keyPtr < colon < valuePtr < i && buf[i] == text[i]
    ensures !EndsValue(text[i]) ==> InValue(text, buf, keyPtr, colon, valuePtr, i + 1)
    ensures InKey(text, buf[i := NUL], i + 1, i + 1)
  {
    hide EndsValue, KeyLength, ValueStart;
    assert buf[keyPtr..][i - keyPtr] == text[keyPtr..][i - keyPtr];
    assert forall k | i < k < |buf| :: buf[k] == buf[keyPtr..][k - keyPtr];
    assert buf[i := NUL][i + 1..] == text[i + 1..];
  }

  lemma FieldsBefore(buf: seq<char>, entries: seq<Entry>, fields: seq<Field>, keyPtr: nat, i: nat)
    requires FieldsAt(buf, entries, fields, keyPtr) && keyPtr <= i < |buf|
    ensures FieldsAt(buf[i := NUL], entries, fields, keyPtr) && FieldsAt(buf, entries, fields, i + 1)
  {
    hide FieldsAt;
    assert buf[i := NUL][..keyPtr] == buf[..keyPtr];
    FieldsStay(buf, buf[i := NUL], entries, fields, keyPtr, keyPtr);
    FieldsStay(buf, buf, entries, fields, keyPtr, i + 1);
  }

  lemma AtLineEnd(text: string, buf: seq<char>, keyPtr: nat, i: nat)
    requires InKey(text, buf, keyPtr, i) && i < |text| && (text[i] == '\r' || text[i] == '\n')
    ensures Parse(text[keyPtr..]) == if keyPtr + 1 < i then None else Parse(text[i + 1..])
  {
    hide KeyLength, ValueLength, ValueStart;
    KeyEnds(text, buf, keyPtr, i);
    assert text[keyPtr..][i - keyPtr + 1..] == text[i + 1..];
  }

  lemma AtEnd(text: string, buf: seq<char>, keyPtr: nat, i: nat)
    requires InKey(text, buf, keyPtr, i) && (i == |text| || text[i] == NUL)
    ensures Parse(text[keyPtr..]) == Some([])
  {
    hide KeyLength, ValueLength, ValueStart;
    KeyEnds(text, buf, keyPtr, i);
  }

  lemma ValueEnds(text: string, buf: seq<char>, keyPtr: nat, colon: nat, valuePtr: nat, i: nat)
    requires InValue(text, buf, keyPtr, colon, valuePtr, i) && (i < |text| ==> EndsValue(text[i]))
    ensures ValueLength(text[keyPtr..][valuePtr - keyPtr + 1..]) == i - valuePtr - 1
  {
    hide EndsValue, KeyLength, ValueLength, ValueStart;
    var s := text[keyPtr..][valuePtr - keyPtr + 1..];
    assert s == text[valuePtr + 1..];
    assert forall k | 0 <= k < i - valuePtr - 1 :: s[k] == text[valuePtr + 1 + k];
    ValueLengthIs(s, i - valuePtr - 1);
  }

  lemma ValueAtEnd(text: string, buf: seq<char>, keyPtr: nat, colon: nat, valuePtr: nat, i: nat)
    requires InValue(text, buf, keyPtr, colon, valuePtr, i) && (i == |text| || text[i] == NUL)
    ensures Parse(text[keyPtr..]) == Some([])
  {
    hide KeyLength, ValueLength, ValueStart;
    ValueEnds(text, buf, keyPtr, colon, valuePtr, i);
  }

  lemma ValueAtLineEnd(text: string, buf: seq<char>, keyPtr: nat, colon: nat, valuePtr: nat, i: nat)
    requires InValue(text, buf, keyPtr, colon, valuePtr, i) && i < |text| && (text[i] == '\r' || text[i] == '\n')
    ensures Parse(text[keyPtr..])
         == AndThen(Parse(text[i + 1..]), [Field(text[keyPtr..colon], ValueString(text[valuePtr..i]))])
  {
    hide KeyLength, ValueLength, ValueStart, ValueString, Parse;
    ValueEnds(text, buf, keyPtr, colon, valuePtr, i);
    var s := text[keyPtr..];
    assert s[i - keyPtr + 1..] == text[i + 1..];
    assert s[..colon - keyPtr] == text[keyPtr..colon] && s[valuePtr - keyPtr..i - keyPtr] == text[valuePtr..i];
    ParseFieldAt(s, colon - keyPtr, valuePtr - keyPtr, i - keyPtr);
  }

  /** A terminator at the end of a value completes the field. */
  lemma FieldStored(text: string, buf: seq<char>, keyPtr: nat, colon: nat, valuePtr: nat, i: nat)
    requires InValue(text, buf, keyPtr, colon, valuePtr, i) && i < |text|
    ensures var f := Field(text[keyPtr..colon], ValueString(text[valuePtr..i]));
      FieldAt(buf[i := NUL], Entry(keyPtr, valuePtr), f, i + 1)
  {
    hide KeyLength, ValueStart, EndsKey, StringAt, ValueString;
    KeyStored(text, buf, keyPtr, colon, i);
    ValueStored(text, buf, keyPtr, colon, valuePtr, i);
  }

  lemma KeyStored(text: string, buf: seq<char>, keyPtr: nat, colon: nat, i: nat)
    requires keyPtr < colon < i < |text| == |buf| && buf[keyPtr..] == text[keyPtr..][colon - keyPtr := NUL]
    requires KeyLength(text[keyPtr..]) == colon - keyPtr
    ensures StringAt(buf[i := NUL], keyPtr, text[keyPtr..colon], i + 1)
  {
    hide KeyLength;
    var end := buf[i := NUL];
    assert forall k | keyPtr <= k < i :: end[k] == buf[keyPtr..][k - keyPtr];
    assert end[keyPtr..colon] == text[keyPtr..colon] && end[colon] == NUL;
    KeyHasNoNul(text, keyPtr, colon);
  }

  lemma ValueStored(text: string, buf: seq<char>, keyPtr: nat, colon: nat, valuePtr: nat, i: nat)
    requires keyPtr < colon < valuePtr < i < |text| == |buf| && buf[keyPtr..] == text[keyPtr..][colon - keyPtr := NUL]
    requires forall k | valuePtr < k < i :: !EndsValue(text[k])
    ensures StringAt(buf[i := NUL], valuePtr, ValueString(text[valuePtr..i]), i + 1)
  {
    var end := buf[i := NUL];
    assert forall k | colon < k < i :: end[k] == buf[keyPtr..][k - keyPtr] == text[k];
    assert end[valuePtr..i] == text[valuePtr..i] && end[i] == NUL;
    assert ValueString(text[valuePtr..i]) == "" ==> end[valuePtr] == NUL;
  }

  lemma KeyHasNoNul(text: string, keyPtr: nat, colon: nat)
    requires keyPtr <= colon <= |text| && KeyLength(text[keyPtr..]) == colon - keyPtr
    ensures forall k | keyPtr <= k < colon :: text[k] != NUL
  {
    hide KeyLength;
    assert forall k | keyPtr <= k < colon :: text[k] == text[keyPtr..][k - keyPtr];
  }

  lemma FieldAdded(buf: seq<char>, entries: seq<Entry>, fields: seq<Field>, e: Entry, f: Field, keyPtr: nat, i: nat)
    requires FieldsAt(buf, entries, fields, keyPtr) && keyPtr <= i < |buf| && FieldAt(buf[i := NUL], e, f, i + 1)
    ensures FieldsAt(buf[i := NUL], [e] + entries, [f] + fields, i + 1)
  {
    hide FieldAt;
    assert buf[..keyPtr] == buf[i := NUL][..keyPtr];
    FieldsStay(buf, buf[i := NUL], entries, fields, keyPtr, i + 1);
  }

  /** chiaki_http_header_parse. On success the list's strings are the fields. */
  method ParseInPlace(buf: array<char>) returns (ok: bool, header: seq<Entry>)
    modifies buf
    ensures ok == Parse(old(buf[..])).Some?
    ensures ok ==> FieldsAt(buf[..], header, Parse(old(buf[..])).value, buf.Length)
    ensures !ok ==> header == []
    ensures OnlyTerminated(old(buf[..]), buf[..])
  {
    hide Parse, EndsKey, EndsValue, KeyLength, ValueLength, ValueString, AndThen;
    hide FieldsAt, FieldAt, InKey, InValue, OnlyTerminated;
    ghost var text := buf[..];
    ghost var fields: seq<Field>, colon: nat := [], 0;
    header := [];
    var keyPtr, i := 0, 0;
    var valuePtr: Option<nat> := None;
    Begin(text);
    NoFieldsAt(text);
    while i < buf.Length
      invariant keyPtr <= i <= buf.Length == |text|
      invariant Parse(text) == AndThen(Parse(text[keyPtr..]), fields)
      invariant OnlyTerminated(text, buf[..])
      invariant FieldsAt(buf[..], header, fields, keyPtr)
      invariant valuePtr.None? ==> InKey(text, buf[..], keyPtr, i)
      invariant valuePtr.Some? ==> InValue(text, buf[..], keyPtr, colon, valuePtr.value, i)
    {
      var c := buf[i];
      ghost var was := buf[..];
      if valuePtr.None? {
        KeyContinues(text, was, keyPtr, i);
      } else {
        ValueContinues(text, was, keyPtr, colon, valuePtr.value, i);
      }
      EndsAre(c);
      NothingLater(fields);
      FieldsBefore(was, header, fields, keyPtr, i);
      Terminated(text, was, i);
      if c == NUL {
        break;
      }
      if valuePtr.None? {
        if c == ':' {
          AtColon(text, buf[..], keyPtr, i);
          if keyPtr == i {
            return false, [];
          }
          buf[i] := NUL;
          assert buf[..] == was[i := NUL];
          colon := i;
          i := i + 1;
          if i == buf.Length {
            return false, [];
          }
          if buf[i] == ' ' {
            i := i + 1;
          }
          if i == buf.Length {
            return false, [];
          }
          valuePtr := Some(i);
        } else if c == '\r' || c == '\n' {
          AtLineEnd(text, buf[..], keyPtr, i);
          if keyPtr + 1 < i {
            return false, [];
          }
          keyPtr := i + 1;
        }
      } else if c == '\r' || c == '\n' {
        if valuePtr.value == i {
          return false, [];
        }
        ghost var f := Field(text[keyPtr..colon], ValueString(text[valuePtr.value..i]));
        ValueAtLineEnd(text, was, keyPtr, colon, valuePtr.value, i);
        ThenThen(Parse(text[i + 1..]), [f], fields);
        FieldStored(text, was, keyPtr, colon, valuePtr.value, i);
        FieldAdded(was, header, fields, Entry(keyPtr, valuePtr.value), f, keyPtr, i);
        buf[i] := NUL;
        assert buf[..] == was[i := NUL];
        fields := [f] + fields;
        header := [Entry(keyPtr, valuePtr.value)] + header;
        keyPtr := i + 1;
        valuePtr := None;
      }
      i := i + 1;
    }
    if valuePtr.None? {
      AtEnd(text, buf[..], keyPtr, i);
    } else {
      ValueAtEnd(text, buf[..], keyPtr, colon, valuePtr.value, i);
    }
    NothingLater(fields);
    FieldsStay(buf[..], buf[..], header, fields, keyPtr, buf.Length);
    ok := true;
  }

  lemma EndsAre(c: char)
    ensures EndsKey(c) <==> c == ':' || c == NUL || c == '\r' || c == '\n'
    ensures EndsValue(c) <==> c == NUL || c == '\r' || c == '\n'
  {}

  lemma Terminated(was: string, buf: seq<char>, i: nat)
    requires OnlyTerminated(was, buf) && i < |buf|
    ensures OnlyTerminated(was, buf[i := NUL])
  {}

  lemma NothingLater(fields: seq<Field>)
    ensures AndThen(Some([]), fields) == Some(fields) && AndThen(None, fields) == None
  {
    assert [] + fields == fields;
  }

  lemma NoFieldsAt(buf: seq<char>)
    ensures FieldsAt(buf, [], [], 0) && OnlyTerminated(buf, buf) && InKey(buf, buf, 0, 0)
  {}

  lemma Begin(text: string)
    ensures Parse(text) == AndThen(Parse(text[0..]), [])
  {
    assert text[0..] == text;
    if Parse(text).Some? { assert Parse(text).value + [] == Parse(text).value; }
  }
}
