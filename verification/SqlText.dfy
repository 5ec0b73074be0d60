/** Building statement texts (DML_SQLVariant.c): one pass adds up the length, a second one prints into
    a buffer of exactly that length. */
module SqlText {
  import opened OpcTypes

  const NUL := 0 as char

  // ----- The texts -----

  function Join(parts: seq<string>, sep: string): string {
    if parts == [] then ""
    else if |parts| == 1 then parts[0]
    else Join(parts[..|parts| - 1], sep) + sep + parts[|parts| - 1]
  }

  function Repeated(s: string, n: nat): (out: seq<string>)
    ensures |out| == n && forall i :: 0 <= i < n ==> out[i] == s
  {
    seq(n, _ => s)
  }

  function Assigned(attrs: seq<string>): (out: seq<string>)
    ensures |out| == |attrs| && forall i :: 0 <= i < |attrs| ==> out[i] == attrs[i] + "=?"
  {
    seq(|attrs|, i requires 0 <= i < |attrs| => attrs[i] + "=?")
  }

  function InsertText(table: string, attrs: seq<string>): string {
    "insert into " + table + " (" + Join(attrs, ",") + ") values (" + Join(Repeated("?", |attrs|), ",") + ")"
  }

  function UpdateText(table: string, attrs: seq<string>, query: Option<string>): string {
    "update " + table + " set " + Join(Assigned(attrs), ", ") + " " + (if query.Some? then "where " + query.value else "")
  }

  function DeleteText(table: string, query: string): string {
    "delete from " + table + " where " + query
  }

  // ----- The pieces that the loops print -----

  /** The first `k` parts, each followed by the separator, or by `end` behind the very last one. */
  function Printed(parts: seq<string>, sep: string, end: string, k: nat): string
    requires k <= |parts|
  {
    if k == 0 then ""
    else Printed(parts, sep, end, k - 1) + (parts[k - 1] + (if k == |parts| then end else sep))
  }

  lemma {:induction false} PrintedBeforeLast(parts: seq<string>, sep: string, end: string, k: nat)
    requires k < |parts|
    ensures Printed(parts, sep, end, k) + parts[k] == Join(parts[..k + 1], sep)
  {
    if k > 0 {
      PrintedBeforeLast(parts, sep, end, k - 1);
      assert parts[..k + 1][..k] == parts[..k];
      var p := Printed(parts, sep, end, k - 1);
      assert p + (parts[k - 1] + sep) + parts[k] == (p + parts[k - 1]) + sep + parts[k];
    } else {
      assert "" + parts[0] == parts[0];
    }
  }

  /** All parts printed one by one are the joined parts and the end. */
  lemma PrintedIsJoin(parts: seq<string>, sep: string, end: string)
    requires parts != []
    ensures Printed(parts, sep, end, |parts|) == Join(parts, sep) + end
  {
    var k := |parts| - 1;
    PrintedBeforeLast(parts, sep, end, k);
    assert parts[..k + 1] == parts;
    var p := Printed(parts, sep, end, k);
    assert p + (parts[k] + end) == (p + parts[k]) + end;
  }

  // ----- Printing into the buffer -----

  /** Formatted output of at most `size` characters with the terminator: a longer text is cut. */
  method Print(buf: array<char>, at: nat, size: nat, text: string) returns (fit: bool)
    requires 0 < size && at + size <= buf.Length
    modifies buf
    ensures fit <==> |text| < size
    ensures fit ==> buf[..at + |text|] == old(buf[..at]) + text && buf[at + |text|] == NUL
  {
    fit := |text| < size;
    var n := if fit then |text| else size - 1;
    var i := 0;
    while i < n
      invariant 0 <= i <= n
      invariant buf[..at + i] == old(buf[..at]) + text[..i]
    {
      buf[at + i] := text[i];
      i := i + 1;
    }
    buf[at + n] := NUL;
    assert fit ==> text[..n] == text;
  }

  lemma PrintedStep(parts: seq<string>, sep: string, end: string, i: nat, text: string, now: string, start: string)
    requires i < |parts| && now == start + Printed(parts, sep, end, i)
    requires text == parts[i] + (if i + 1 == |parts| then end else sep)
    ensures now + text == start + Printed(parts, sep, end, i + 1)
    ensures |Printed(parts, sep, end, i + 1)| == |Printed(parts, sep, end, i)| + |text|
  {
    assert Printed(parts, sep, end, i + 1) == Printed(parts, sep, end, i) + text;
    Regrouped(start, Printed(parts, sep, end, i), text);
  }

  // ----- Insert -----

  /** The length pass over the attributes. */
  method CountNames(attrs: seq<string>) returns (length: nat)
    ensures length == |Printed(attrs, ",", "", |attrs|)|
  {
    length := 0;
    var i := 0;
    while i < |attrs|
      invariant 0 <= i <= |attrs| && length == |Printed(attrs, ",", "", i)|
    {
      length := length + |attrs[i]| + (if i == |attrs| - 1 then 0 else 1);
      i := i + 1;
    }
  }

  /** The print pass over the attributes: every name and the terminator behind it have room. */
  method PrintNames(buf: array<char>, at: nat, attrs: seq<string>) returns (index: nat)
    requires at + |Printed(attrs, ",", "", |attrs|)| < buf.Length
    modifies buf
    ensures index == at + |Printed(attrs, ",", "", |attrs|)|
    ensures buf[..index] == old(buf[..at]) + Printed(attrs, ",", "", |attrs|)
  {
    index := at;
    var i := 0;
    assert buf[..at] == buf[..at] + "";
    while i < |attrs|
      invariant 0 <= i <= |attrs| && index == at + |Printed(attrs, ",", "", i)| < buf.Length
      invariant buf[..index] == old(buf[..at]) + Printed(attrs, ",", "", i)
    {
      PrintedGrows(attrs, ",", "", i + 1, |attrs|);
      var text := attrs[i] + (if i == |attrs| - 1 then "" else ",");
      PrintedStep(attrs, ",", "", i, text, buf[..index], old(buf[..at]));
      var fit := Print(buf, index, buf.Length - index, text);
      assert fit;
      index := index + |attrs[i]| + (if i == |attrs| - 1 then 0 else 1);
      i := i + 1;
    }
  }

  lemma {:induction false} PrintedGrows(parts: seq<string>, sep: string, end: string, k: nat, m: nat)
    requires k <= m <= |parts|
    ensures |Printed(parts, sep, end, k)| <= |Printed(parts, sep, end, m)|
    decreases m
  {
    if k < m {
      PrintedGrows(parts, sep, end, k, m - 1);
    }
  }

  /** The parameter markers take two characters each. */
  lemma {:induction false} MarksLength(n: nat, k: nat)
    requires k <= n
    ensures |Printed(Repeated("?", n), ",", ")", k)| == 2 * k
  {
    if k > 0 {
      MarksLength(n, k - 1);
    }
  }

  method PrintMarks(buf: array<char>, at: nat, n: nat) returns (index: nat)
    requires at + 2 * n < buf.Length
    modifies buf
    ensures index == at + 2 * n
    ensures buf[..index] == old(buf[..at]) + Printed(Repeated("?", n), ",", ")", n)
  {
    index := at;
    var i := 0;
    assert buf[..at] == buf[..at] + "";
    while i < n
      invariant 0 <= i <= n && index == at + 2 * i
      invariant buf[..index] == old(buf[..at]) + Printed(Repeated("?", n), ",", ")", i)
    {
      MarksLength(n, i);
      var text := if i == n - 1 then "?)" else "?,";
      assert text == "?" + (if i == n - 1 then ")" else ",");
      PrintedStep(Repeated("?", n), ",", ")", i, text, buf[..index], old(buf[..at]));
      var fit := Print(buf, index, buf.Length - index, text);
      assert fit;
      index := index + 2;
      i := i + 1;
    }
  }

  /** The print pass: each print has room for its text and terminator, and the last index is the last
      place of the buffer. */
  method PrintInsert(buf: array<char>, head: string, attrs: seq<string>, middle: string)
    requires buf.Length == |head| + |Printed(attrs, ",", "", |attrs|)| + |middle| + 2 * |attrs| + 1
    modifies buf
    ensures buf[..] == head + Printed(attrs, ",", "", |attrs|) + middle + Printed(Repeated("?", |attrs|), ",", ")", |attrs|) + [NUL]
  {
    var fit := Print(buf, 0, buf.Length, head);
    assert fit && buf[..|head|] == head;
    var bufIndex := PrintNames(buf, |head|, attrs);
    fit := Print(buf, bufIndex, buf.Length - bufIndex, middle);
    assert fit;
    bufIndex := bufIndex + |middle|;
    bufIndex := PrintMarks(buf, bufIndex, |attrs|);
    assert bufIndex == buf.Length - 1;
    buf[bufIndex] := NUL;
    assert buf[..] == buf[..bufIndex] + [NUL];
  }

  /** The whole builder: the buffer is the text and one terminator, with nothing left over. */
  method BuildInsert(table: string, attrs: seq<string>) returns (buf: array?<char>)
    ensures buf == null <==> |attrs| < 1
    ensures buf != null ==> fresh(buf) && buf[..] == InsertText(table, attrs) + [NUL]
  {
    if |attrs| < 1 {
      return null;
    }
    var bufLength := |"insert into  ("| + |table|;
    var names := CountNames(attrs);
    bufLength := bufLength + names;
    bufLength := bufLength + |") values ("| + |attrs| * 2;
    bufLength := bufLength + 1;
    buf := new char[bufLength](_ => NUL);
    PrintInsert(buf, "insert into " + table + " (", attrs, ") values (");
    InsertAssembles(table, attrs);
  }

  lemma InsertAssembles(table: string, attrs: seq<string>)
    requires attrs != []
    ensures "insert into " + table + " (" + Printed(attrs, ",", "", |attrs|) + ") values ("
      + Printed(Repeated("?", |attrs|), ",", ")", |attrs|) == InsertText(table, attrs)
  {
    PrintedIsJoin(attrs, ",", "");
    PrintedIsJoin(Repeated("?", |attrs|), ",", ")");
    Glued("insert into " + table + " (", Join(attrs, ","), ") values (", Join(Repeated("?", |attrs|), ","), ")");
  }

  lemma Glued(a: string, x: string, b: string, y: string, e: string)
    ensures a + (x + "") + b + (y + e) == a + x + b + y + e
  {
    assert x + "" == x;
    Regrouped(a + x + b, y, e);
  }

  // ----- Update -----

  /** The first `k` assignments as they are printed. */
  function Settings(attrs: seq<string>, k: nat): string
    requires k <= |attrs|
  {
    Printed(Assigned(attrs), ", ", " ", k)
  }

  lemma SettingsStep(attrs: seq<string>, i: nat, now: string, start: string)
    requires i < |attrs| && now == start + Settings(attrs, i)
    ensures var text := Setting(attrs[i], i == |attrs| - 1);
      && now + text == start + Settings(attrs, i + 1)
      && |Settings(attrs, i + 1)| == |Settings(attrs, i)| + |text| <= |Settings(attrs, |attrs|)|
  {
    PrintedStep(Assigned(attrs), ", ", " ", i, Setting(attrs[i], i == |attrs| - 1), now, start);
    PrintedGrows(Assigned(attrs), ", ", " ", i + 1, |attrs|);
  }

  method CountSettings(attrs: seq<string>) returns (length: nat)
    ensures length == |Settings(attrs, |attrs|)|
  {
    length := 0;
    var i := 0;
    while i < |attrs|
      invariant 0 <= i <= |attrs| && length == |Settings(attrs, i)|
    {
      length := length + |attrs[i]| + (if i == |attrs| - 1 then 3 else 4);
      i := i + 1;
    }
  }

  /** An assignment as the format prints it. */
  function Setting(attr: string, last: bool): (text: string)
    ensures text == (attr + "=?") + (if last then " " else ", ")
    ensures |text| == |attr| + (if last then 3 else 4)
  {
    attr + "=?" + (if last then "" else ",") + " "
  }

  /** The print pass over the assignments. */
  method PrintSettings(buf: array<char>, at: nat, attrs: seq<string>) returns (index: nat)
    requires at + |Settings(attrs, |attrs|)| < buf.Length
    modifies buf
    ensures index == at + |Settings(attrs, |attrs|)|
    ensures buf[..index] == old(buf[..at]) + Settings(attrs, |attrs|)
  {
    index := at;
    var i := 0;
    assert buf[..at] == buf[..at] + "";
    while i < |attrs|
      invariant 0 <= i <= |attrs| && index == at + |Settings(attrs, i)| < buf.Length
      invariant buf[..index] == old(buf[..at]) + Settings(attrs, i)
    {
      var text := Setting(attrs[i], i == |attrs| - 1);
      SettingsStep(attrs, i, buf[..index], old(buf[..at]));
      var fit := Print(buf, index, buf.Length - index, text);
      assert fit;
      index := index + |attrs[i]| + (if i == |attrs| - 1 then 3 else 4);
      i := i + 1;
    }
  }

  method BuildUpdate(table: string, attrs: seq<string>, query: Option<string>) returns (buf: array?<char>)
    ensures buf == null <==> |attrs| < 1
    ensures buf != null ==> fresh(buf) && buf[..] == UpdateText(table, attrs, query) + [NUL]
  {
    if |attrs| < 1 {
      return null;
    }
    var bufLength := 0;
    if query.Some? {
      bufLength := bufLength + |"where "| + |query.value|;
    }
    bufLength := bufLength + |"update "| + |table| + |" set "|;
    var settings := CountSettings(attrs);
    bufLength := bufLength + settings;
    bufLength := bufLength + 1;
    buf := new char[bufLength](_ => NUL);
    PrintUpdate(buf, "update " + table + " set ", attrs, if query.Some? then Some("where " + query.value) else None);
    UpdateAssembles(table, attrs, query);
  }

  method PrintUpdate(buf: array<char>, head: string, attrs: seq<string>, tail: Option<string>)
    requires buf.Length == |head| + |Settings(attrs, |attrs|)| + (if tail.Some? then |tail.value| else 0) + 1
    modifies buf
    ensures buf[..] == head + Settings(attrs, |attrs|) + (if tail.Some? then tail.value else "") + [NUL]
  {
    var fit := Print(buf, 0, buf.Length, head);
    assert fit && buf[..|head|] == head;
    var bufIndex := PrintSettings(buf, |head|, attrs);
    assert buf[..bufIndex] == buf[..bufIndex] + "";
    if tail.Some? {
      fit := Print(buf, bufIndex, buf.Length - bufIndex, tail.value);
      assert fit;
      bufIndex := bufIndex + |tail.value|;
    }
    assert bufIndex == buf.Length - 1;
    buf[bufIndex] := NUL;
    assert buf[..] == buf[..bufIndex] + [NUL];
  }

  lemma UpdateAssembles(table: string, attrs: seq<string>, query: Option<string>)
    requires attrs != []
    ensures "update " + table + " set " + Settings(attrs, |attrs|)
      + (if query.Some? then "where " + query.value else "") == UpdateText(table, attrs, query)
  {
    PrintedIsJoin(Assigned(attrs), ", ", " ");
    Regroup4("update " + table + " set ", Join(Assigned(attrs), ", "), " ", if query.Some? then "where " + query.value else "");
  }

  lemma Regroup4(a: string, b: string, c: string, d: string)
    ensures a + (b + c) + d == a + b + c + d
  {
    assert a + (b + c) == a + b + c;
  }

  // ----- Delete -----

  /** The size is computed from the where-text even when that is missing, so this builder is modelled
      for requests that have one. */
  method BuildDelete(table: string, query: string) returns (buf: array<char>)
    ensures fresh(buf) && buf[..] == DeleteText(table, query) + [NUL]
  {
    var bufferSize := |"delete from "| + |table| + |" where "| + |query| + 1;
    buf := new char[bufferSize](_ => NUL);
    PrintDelete(buf, DeleteText(table, query));
  }

  method PrintDelete(buf: array<char>, text: string)
    requires buf.Length == |text| + 1
    modifies buf
    ensures buf[..] == text + [NUL]
  {
    var fit := Print(buf, 0, buf.Length, text);
    assert fit;
    buf[buf.Length - 1] := NUL;
    assert buf[..] == buf[..|text|] + [NUL];
  }

  // ----- What can be read back from the texts -----

  /** The stretches between the commas. */
  function Split(s: string): (parts: seq<string>)
    ensures parts != []
  {
    if s == "" then [""]
    else
      var rest := Split(s[1..]);
      if s[0] == ',' then [""] + rest else [[s[0]] + rest[0]] + rest[1..]
  }

  lemma {:induction false} SplitOfOne(s: string)
    requires ',' !in s
    ensures Split(s) == [s]
  {
    if s != "" {
      assert forall c :: c in s[1..] ==> c in s;
      SplitOfOne(s[1..]);
      assert [s[0]] + s[1..] == s;
    }
  }

  lemma {:induction false} SplitOfSum(a: string, b: string)
    ensures Split(a + "," + b) == Split(a) + Split(b)
  {
    var whole := a + "," + b;
    if a == "" {
      assert whole == "," + b && whole[1..] == b;
    } else {
      assert whole[1..] == a[1..] + "," + b && whole[0] == a[0];
      SplitOfSum(a[1..], b);
      Prepend(a[0], Split(a[1..]), Split(b));
    }
  }

  lemma Prepend(c: char, rest: seq<string>, more: seq<string>)
    requires rest != []
    ensures [""] + (rest + more) == ([""] + rest) + more
    ensures [[c] + (rest + more)[0]] + (rest + more)[1..] == ([[c] + rest[0]] + rest[1..]) + more
  {
    assert (rest + more)[1..] == rest[1..] + more;
  }

  /** The parts, each behind the first with the padding in front. */
  function Padded(parts: seq<string>, pad: string): (out: seq<string>)
    ensures |out| == |parts| && forall i :: 0 <= i < |parts| ==> out[i] == if i == 0 then parts[0] else pad + parts[i]
  {
    seq(|parts|, i requires 0 <= i < |parts| => if i == 0 then parts[0] else pad + parts[i])
  }

  /** Joined parts without commas can be told apart again. */
  lemma {:induction false} SplitOfJoin(parts: seq<string>, pad: string)
    requires parts != [] && ',' !in pad && forall p :: p in parts ==> ',' !in p
    ensures Split(Join(parts, "," + pad)) == Padded(parts, pad)
  {
    var n := |parts| - 1;
    assert parts[n] in parts;
    if n == 0 {
      SplitOfOne(parts[0]);
    } else {
      SplitOfJoin(parts[..n], pad);
      SplitOfOne(pad + parts[n]);
      SplitOfSum(Join(parts[..n], "," + pad), pad + parts[n]);
      JoinOfLast(parts, pad);
    }
  }

  lemma JoinOfLast(parts: seq<string>, pad: string)
    requires |parts| > 1
    ensures var n := |parts| - 1;
      && Join(parts, "," + pad) == Join(parts[..n], "," + pad) + "," + (pad + parts[n])
      && Padded(parts, pad) == Padded(parts[..n], pad) + [pad + parts[n]]
  {
    JoinUnfolds(parts, "," + pad);
    Reassociated(Join(parts[..|parts| - 1], "," + pad), ",", pad, parts[|parts| - 1]);
    PaddedUnfolds(parts, pad);
  }

  lemma JoinUnfolds(parts: seq<string>, sep: string)
    requires |parts| > 1
    ensures Join(parts, sep) == Join(parts[..|parts| - 1], sep) + sep + parts[|parts| - 1]
  {
  }

  lemma PaddedUnfolds(parts: seq<string>, pad: string)
    requires |parts| > 1
    ensures Padded(parts, pad) == Padded(parts[..|parts| - 1], pad) + [pad + parts[|parts| - 1]]
  {
    var n := |parts| - 1;
    var all, init := Padded(parts, pad), Padded(parts[..n], pad);
    forall i | 0 <= i < |parts|
      ensures all[i] == (init + [pad + parts[n]])[i]
    {
      assert i < n ==> init[i] == if i == 0 then parts[0] else pad + parts[i];
    }
  }

  lemma Reassociated(a: string, b: string, c: string, d: string)
    ensures a + (b + c) + d == a + b + (c + d)
  {
  }

  lemma NotPadded(parts: seq<string>)
    ensures Padded(parts, "") == parts
  {
    forall i | 0 <= i < |parts|
      ensures Padded(parts, "")[i] == parts[i]
    {
      assert "" + parts[i] == parts[i];
    }
  }

  /** From an insert the table, the names in their order and as many marks can be read back. */
  lemma InsertIsReadBack(table: string, attrs: seq<string>) returns (names: string, marks: string)
    requires attrs != [] && forall a :: a in attrs ==> ',' !in a
    ensures InsertText(table, attrs) == "insert into " + table + " (" + names + ") values (" + marks + ")"
    ensures Split(names) == attrs && |Split(marks)| == |attrs| && forall i :: 0 <= i < |attrs| ==> Split(marks)[i] == "?"
  {
    names, marks := Join(attrs, ","), Join(Repeated("?", |attrs|), ",");
    assert "," + "" == ",";
    SplitOfJoin(attrs, "");
    SplitOfJoin(Repeated("?", |attrs|), "");
    NotPadded(attrs);
    NotPadded(Repeated("?", |attrs|));
  }

  /** From an update the table, one assignment of a mark for each name, in order, and the where-text. */
  lemma UpdateIsReadBack(table: string, attrs: seq<string>, query: Option<string>) returns (settings: string)
    requires attrs != [] && forall a :: a in attrs ==> ',' !in a
    ensures UpdateText(table, attrs, query)
      == "update " + table + " set " + settings + " " + (if query.Some? then "where " + query.value else "")
    ensures SetsAll(Split(settings), attrs)
  {
    settings := Join(Assigned(attrs), ", ");
    SettingsSplit(attrs);
  }

  /** One assignment for each name, in order, with a blank behind each comma. */
  ghost predicate SetsAll(parts: seq<string>, attrs: seq<string>) {
    |parts| == |attrs| && forall i :: 0 <= i < |attrs| ==> parts[i] == (if i == 0 then "" else " ") + attrs[i] + "=?"
  }

  lemma SettingsSplit(attrs: seq<string>)
    requires attrs != [] && forall a :: a in attrs ==> ',' !in a
    ensures SetsAll(Split(Join(Assigned(attrs), ", ")), attrs)
  {
    forall p | p in Assigned(attrs)
      ensures ',' !in p
    {
      var i :| 0 <= i < |attrs| && Assigned(attrs)[i] == p;
      assert attrs[i] in attrs;
    }
    assert "," + " " == ", ";
    SplitOfJoin(Assigned(attrs), " ");
    forall i | 0 <= i < |attrs|
      ensures Padded(Assigned(attrs), " ")[i] == (if i == 0 then "" else " ") + attrs[i] + "=?"
    {
      SettingIs(attrs[i]);
    }
  }

  lemma SettingIs(attr: string)
    ensures " " + (attr + "=?") == " " + attr + "=?" && attr + "=?" == "" + attr + "=?"
  {
  }

  /** A delete names the table first and ends with the where-text. */
  lemma DeleteIsReadBack(table: string, query: string)
    ensures var text := DeleteText(table, query);
      && |text| == 19 + |table| + |query|
      && text[..12] == "delete from " && text[12..12 + |table|] == table
      && text[12 + |table|..19 + |table|] == " where " && text[19 + |table|..] == query
  {
  }

  // ----- What the database reads -----

  predicate NoNul(s: string) {
    NUL !in s
  }

  /** The length of a C string: the characters in front of its first terminator. */
  function StrLen(s: string): (n: nat)
    ensures n <= |s| && NUL !in s[..n] && (n < |s| ==> s[n] == NUL)
  {
    if s == "" || s[0] == NUL then 0
    else
      assert s == [s[0]] + s[1..];
      1 + StrLen(s[1..])
  }

  lemma {:induction false} JoinHasNoNul(parts: seq<string>, sep: string)
    requires (forall p :: p in parts ==> NoNul(p)) && NoNul(sep)
    ensures NoNul(Join(parts, sep))
  {
    if parts != [] {
      assert parts[|parts| - 1] in parts;
      JoinHasNoNul(parts[..|parts| - 1], sep);
    }
  }

  /** Names without terminators inside give a text that is read to its end. */
  lemma InsertIsReadWhole(table: string, attrs: seq<string>)
    requires NoNul(table) && forall a :: a in attrs ==> NoNul(a)
    ensures StrLen(InsertText(table, attrs) + [NUL]) == |InsertText(table, attrs)|
  {
    JoinHasNoNul(attrs, ",");
    JoinHasNoNul(Repeated("?", |attrs|), ",");
    assert NoNul(InsertText(table, attrs));
    ReadsWhole(InsertText(table, attrs));
  }

  lemma UpdateIsReadWhole(table: string, attrs: seq<string>, query: Option<string>)
    requires NoNul(table) && (query.Some? ==> NoNul(query.value)) && forall a :: a in attrs ==> NoNul(a)
    ensures StrLen(UpdateText(table, attrs, query) + [NUL]) == |UpdateText(table, attrs, query)|
  {
    forall p | p in Assigned(attrs)
      ensures NoNul(p)
    {
      var i :| 0 <= i < |attrs| && Assigned(attrs)[i] == p;
      assert attrs[i] in attrs;
    }
    JoinHasNoNul(Assigned(attrs), ", ");
    assert NoNul(UpdateText(table, attrs, query));
    ReadsWhole(UpdateText(table, attrs, query));
  }

  lemma ReadsWhole(s: string)
    requires NoNul(s)
    ensures StrLen(s + [NUL]) == |s|
  {
    assert forall i :: 0 <= i < |s| ==> (s + [NUL])[i] == s[i] && s[i] in s;
    assert (s + [NUL])[..|s| + 1][|s|] == NUL;
  }
}
