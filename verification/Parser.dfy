/** parser_cmd and what it is made of: requests and responses of the form version:verb:command;data. */
module Parser {
  import opened Config
  import opened CStrings

  const COLON: byte := 58
  const SEMICOLON: byte := 59

  datatype Option<T> = None | Some(value: T)

  // ----- C strings: a text stands for its characters up to the NUL

  /** Where a character stands first from index i on, or the length of the text. */
  function Find(s: seq<byte>, c: byte, i: nat): (k: nat)
    requires i <= |s|
    ensures i <= k <= |s| && (forall j :: i <= j < k ==> s[j] != c) && (k < |s| ==> s[k] == c)
    decreases |s| - i
  {
    if i == |s| || s[i] == c then i else Find(s, c, i + 1)
  }

  /** The index behind the semicolons that lead a text. */
  function Leading(s: seq<byte>, i: nat): (k: nat)
    requires i <= |s|
    ensures i <= k <= |s| && (forall j :: i <= j < k ==> s[j] == SEMICOLON) && (k < |s| ==> s[k] != SEMICOLON)
    decreases |s| - i
  {
    if i == |s| || s[i] != SEMICOLON then i else Leading(s, i + 1)
  }

  /** strtok_r on the semicolon: the first token and what is left behind it. */
  function Strtok(s: seq<byte>): Option<(seq<byte>, seq<byte>)> {
    var ptr := Leading(s, 0);
    if ptr == |s| then None
    else
      var end := Find(s, SEMICOLON, ptr);
      Some((s[ptr..end], if end < |s| then s[end + 1..] else []))
  }

  predicate White(c: byte) {
    c == 32 || 9 <= c <= 13
  }

  function Blanks(s: seq<byte>): (k: nat)
    ensures k <= |s| && (k < |s| ==> !White(s[k]))
  {
    if s == [] || !White(s[0]) then 0 else 1 + Blanks(s[1..])
  }

  function WordEnd(s: seq<byte>): (k: nat)
    ensures k <= |s| && (forall i :: 0 <= i < k ==> !White(s[i])) && (k < |s| ==> White(s[k]))
  {
    if s == [] || White(s[0]) then 0 else 1 + WordEnd(s[1..])
  }

  /** sscanf with n conversions, all %[^:]%*c but the last, which is %s: the fields that are assigned. */
  function Fields(s: seq<byte>, n: nat): (fields: seq<seq<byte>>)
    ensures |fields| <= n
  {
    if n == 0 then []
    else if n == 1 then
      var t := s[Blanks(s)..];
      if t == [] then [] else [t[..WordEnd(t)]]
    else
      var k := Find(s, COLON, 0);
      if k == 0 then [] else if k == |s| then [s] else [s[..k]] + Fields(s[k + 1..], n - 1)
  }

  // ----- sscanf

  /** %[^:], %*c and %s. */
  datatype Conversion = UpToColon | Skip | Word

  /** The fields that a conversion assigns, and the text behind what it takes; None if it finds nothing. */
  function Converted(s: seq<byte>, c: Conversion): Option<(seq<seq<byte>>, seq<byte>)> {
    match c
    case UpToColon =>
      var k := Find(s, COLON, 0);
      if k == 0 then None else Some(([s[..k]], s[k..]))
    case Skip => if s == [] then None else Some(([], s[1..]))
    case Word =>
      var t := s[Blanks(s)..];
      if t == [] then None else Some(([t[..WordEnd(t)]], t[WordEnd(t)..]))
  }

  /** What sscanf assigns: a conversion that finds nothing ends it. */
  function Scan(s: seq<byte>, format: seq<Conversion>): seq<seq<byte>> {
    if format == [] then []
    else match Converted(s, format[0])
      case None => []
      case Some((got, rest)) => got + Scan(rest, format[1..])
  }

  function Format(n: nat): seq<Conversion> {
    if n == 0 then [] else if n == 1 then [Word] else [UpToColon, Skip] + Format(n - 1)
  }

  lemma ScanUpTo(s: seq<byte>, k: nat, more: seq<Conversion>)
    requires k == Find(s, COLON, 0)
    ensures Scan(s, [UpToColon] + more) == if k == 0 then [] else [s[..k]] + Scan(s[k..], more)
  {
    assert ([UpToColon] + more)[1..] == more;
  }

  lemma ScanSkip(s: seq<byte>, more: seq<Conversion>)
    ensures Scan(s, [Skip] + more) == if s == [] then [] else Scan(s[1..], more)
  {
    assert ([Skip] + more)[1..] == more;
  }

  /** A field up to a colon, and the colon. */
  lemma ScanField(s: seq<byte>, k: nat, more: seq<Conversion>)
    requires k == Find(s, COLON, 0)
    ensures k == 0 ==> Scan(s, [UpToColon, Skip] + more) == []
    ensures k == |s| ==> Scan(s, [UpToColon, Skip] + more) == if s == [] then [] else [s]
    ensures 0 < k < |s| ==> Scan(s, [UpToColon, Skip] + more) == [s[..k]] + Scan(s[k + 1..], more)
  {
    var format := [Skip] + more;
    assert [UpToColon, Skip] + more == [UpToColon] + format;
    ScanUpTo(s, k, format);
    ScanSkip(s[k..], more);
    if k < |s| {
      assert s[k..][1..] == s[k + 1..];
    } else {
      assert s[..k] == s && s[k..] == [];
    }
  }

  lemma {:induction false} ScanFields(s: seq<byte>, n: nat)
    ensures Scan(s, Format(n)) == Fields(s, n)
    decreases n
  {
    if n == 1 {
      assert Format(1)[1..] == [];
    } else if n > 1 {
      var k := Find(s, COLON, 0);
      ScanField(s, k, Format(n - 1));
      if 0 < k < |s| {
        ScanFields(s[k + 1..], n - 1);
      }
    }
  }

  /** One conversion. */
  method Convert(s: seq<byte>, c: Conversion) returns (ok: bool, got: seq<seq<byte>>, rest: seq<byte>)
    ensures Converted(s, c) == if ok then Some((got, rest)) else None
  {
    ok, got, rest := true, [], s;
    match c
    case UpToColon =>
      var k := Find(s, COLON, 0);
      ok, got, rest := k > 0, [s[..k]], s[k..];
    case Skip =>
      ok := s != [];
      if ok {
        rest := s[1..];
      }
    case Word =>
      rest := s[Blanks(s)..];
      ok := rest != [];
      var k := WordEnd(rest);
      got, rest := [rest[..k]], rest[k..];
  }

  /** sscanf, conversion by conversion. */
  method Sscanf(s: seq<byte>, format: seq<Conversion>) returns (fields: seq<seq<byte>>)
    ensures fields == Scan(s, format)
  {
    fields := [];
    var rest := s;
    for i := 0 to |format|
      invariant fields + Scan(rest, format[i..]) == Scan(s, format)
    {
      assert format[i..][1..] == format[i + 1..];
      var ok, got;
      ghost var before := fields;
      ok, got, rest := Convert(rest, format[i]);
      if !ok {
        return;
      }
      fields := fields + got;
      assert before + (got + Scan(rest, format[i + 1..])) == fields + Scan(rest, format[i + 1..]);
    }
  }

  // ----- fields and their printed form

  function Join(fields: seq<seq<byte>>): seq<byte> {
    if fields == [] then []
    else if |fields| == 1 then fields[0]
    else fields[0] + [COLON] + Join(fields[1..])
  }

  /** All fields are there; none but the last has a colon, and the last has no white space. */
  predicate Printable(fields: seq<seq<byte>>) {
    if fields == [] then true
    else if |fields| == 1 then fields[0] != [] && forall c :: c in fields[0] ==> !White(c)
    else fields[0] != [] && COLON !in fields[0] && Printable(fields[1..])
  }

  lemma {:induction false} FieldsPrintable(s: seq<byte>, n: nat)
    requires |Fields(s, n)| == n
    ensures Printable(Fields(s, n))
    decreases n
  {
    if n == 1 {
      var t := s[Blanks(s)..];
      assert forall i :: 0 <= i < WordEnd(t) ==> t[..WordEnd(t)][i] == t[i];
    } else if n > 1 {
      FieldsPrintable(s[Find(s, COLON, 0) + 1..], n - 1);
      assert Fields(s, n)[1..] == Fields(s[Find(s, COLON, 0) + 1..], n - 1);
    }
  }

  lemma {:induction false} WholeWord(s: seq<byte>)
    requires forall c :: c in s ==> !White(c)
    ensures WordEnd(s) == |s|
  {
    if s != [] {
      WholeWord(s[1..]);
    }
  }

  lemma FieldsCons(a: seq<byte>, b: seq<byte>, n: nat)
    requires a != [] && COLON !in a && n >= 1
    ensures Fields(a + [COLON] + b, n + 1) == [a] + Fields(b, n)
  {
    var s := a + [COLON] + b;
    assert s[|a|] == COLON && s[..|a|] == a && s[|a| + 1..] == b;
    assert Find(s, COLON, 0) == |a| by {
      assert forall i :: 0 <= i < |a| ==> s[i] == a[i] != COLON;
    }
  }

  lemma FieldsWord(w: seq<byte>)
    requires w != [] && forall c :: c in w ==> !White(c)
    ensures Fields(w, 1) == [w]
  {
    WholeWord(w);
    assert w[0] in w && w[0..] == w && w[..|w|] == w;
  }

  /** The first of several printable fields. */
  lemma PrintableCons(fields: seq<seq<byte>>)
    requires Printable(fields) && |fields| > 1
    ensures fields[0] != [] && COLON !in fields[0] && Printable(fields[1..])
    ensures Join(fields) == fields[0] + [COLON] + Join(fields[1..])
  {
  }

  lemma ReadCons(first: seq<byte>, others: seq<seq<byte>>, more: seq<byte>, n: nat)
    requires first != [] && COLON !in first && n >= 1 && Fields(more, n) == others
    ensures Fields(first + [COLON] + more, n + 1) == [first] + others
  {
    FieldsCons(first, more, n);
  }

  lemma {:induction false} PrintedRead(fields: seq<seq<byte>>, text: seq<byte>, n: nat)
    requires Printable(fields) && text == Join(fields) && n == |fields|
    ensures Fields(text, n) == fields
    decreases n
  {
    if n == 1 {
      FieldsWord(fields[0]);
    } else if n > 1 {
      var more := Join(fields[1..]);
      PrintableCons(fields);
      PrintedRead(fields[1..], more, n - 1);
      ReadCons(fields[0], fields[1..], more, n - 1);
    }
  }

  /** Reading gives back exactly the printable fields. */
  lemma {:induction false} ReadBackExactly(fields: seq<seq<byte>>)
    ensures Fields(Join(fields), |fields|) == fields <==> Printable(fields)
  {
    if Printable(fields) {
      PrintedRead(fields, Join(fields), |fields|);
    } else if Fields(Join(fields), |fields|) == fields {
      FieldsPrintable(Join(fields), |fields|);
    }
  }

  // ----- texts that are not printed fields

  lemma ColonFound(a: seq<byte>, b: seq<byte>)
    requires 58 !in a
    ensures Find(a + [58] + b, 58, 0) == |a| && Find(a, 58, 0) == |a|
    ensures (a + [58] + b)[..|a|] == a && (a + [58] + b)[|a| + 1..] == b
  {
    var s := a + [58] + b;
    assert s[|a|] == 58 && forall i :: 0 <= i < |a| ==> s[i] == a[i] && a[i] in a;
  }

  /** Fields before the last one end at a colon; the first that is empty ends the reading. */
  lemma FieldsMean(a: seq<byte>, b: seq<byte>, n: nat)
    requires 58 !in a && n >= 2
    ensures Fields(a + [58] + b, n) == if a == [] then [] else [a] + Fields(b, n - 1)
    ensures Fields(a, n) == if a == [] then [] else [a]
  {
    ColonFound(a, b);
  }

  predicate Blank(c: byte) {
    c == 32 || c == 9 || c == 10 || c == 11 || c == 12 || c == 13
  }

  lemma {:induction false} BlanksSkipped(a: seq<byte>, b: seq<byte>)
    requires (forall c :: c in a ==> Blank(c)) && (b != [] ==> !Blank(b[0]))
    ensures Blanks(a + b) == |a| && (a + b)[|a|..] == b
    decreases |a|
  {
    if a != [] {
      assert a[0] in a && (a + b)[1..] == a[1..] + b;
      BlanksSkipped(a[1..], b);
    } else {
      assert a + b == b;
    }
  }

  lemma {:induction false} WordTaken(w: seq<byte>, rest: seq<byte>)
    requires (forall c :: c in w ==> !Blank(c)) && (rest != [] ==> Blank(rest[0]))
    ensures WordEnd(w + rest) == |w| && (w + rest)[..|w|] == w
    decreases |w|
  {
    if w != [] {
      assert w[0] in w && (w + rest)[1..] == w[1..] + rest;
      WordTaken(w[1..], rest);
    } else {
      assert w + rest == rest;
    }
  }

  /** The last field is a word: blanks before it are skipped, and a blank ends it. */
  lemma WordMeans(blanks: seq<byte>, w: seq<byte>, rest: seq<byte>)
    requires (forall c :: c in blanks ==> Blank(c)) && (forall c :: c in w ==> !Blank(c))
    requires (rest != [] ==> Blank(rest[0])) && (w == [] ==> rest == [])
    ensures Fields(blanks + (w + rest), 1) == if w == [] then [] else [w]
  {
    assert w != [] ==> w[0] in w && (w + rest)[0] == w[0];
    BlanksSkipped(blanks, w + rest);
    WordTaken(w, rest);
  }

  // ----- requests and responses

  /** sprintf of the response. */
  function Response(version: seq<byte>, cmd: seq<byte>, payload: seq<byte>): seq<byte> {
    version + Ascii(":response:") + cmd + [SEMICOLON] + payload
  }

  /** The fields of the first token hold no semicolon and do not start with one. */
  lemma {:induction false} FieldsInside(s: seq<byte>, n: nat, c: byte)
    requires c !in s
    ensures forall i :: 0 <= i < |Fields(s, n)| ==> c !in Fields(s, n)[i]
    decreases n
  {
    if n == 1 {
      var t := s[Blanks(s)..];
      assert forall b :: b in t ==> b in s;
    } else if n > 1 {
      var k := Find(s, COLON, 0);
      if 0 < k < |s| {
        FieldsInside(s[k + 1..], n - 1, c);
      }
    }
  }

  lemma TokenFree(s: seq<byte>)
    requires Strtok(s).Some?
    ensures SEMICOLON !in Strtok(s).value.0
  {
  }

  lemma FirstToken(token: seq<byte>, rest: seq<byte>)
    requires token != [] && SEMICOLON !in token
    ensures Strtok(token + [SEMICOLON] + rest) == Some((token, rest))
  {
    var s := token + [SEMICOLON] + rest;
    assert s[|token|] == SEMICOLON && s[0..|token|] == token && s[|token| + 1..] == rest;
    assert forall i :: 0 <= i < |token| ==> s[i] == token[i] != SEMICOLON;
    assert Leading(s, 0) == 0 && Find(s, SEMICOLON, 0) == |token|;
  }

  /** Semicolons before the first token are skipped; without another one the token is the whole text. */
  lemma StrtokMeans(token: seq<byte>, rest: seq<byte>)
    ensures Strtok([]) == None && Strtok([59] + rest) == Strtok(rest)
    ensures token != [] && 59 !in token ==>
      Strtok(token) == Some((token, [])) && Strtok(token + [59] + rest) == Some((token, rest))
  {
    SemicolonSkipped(rest, [59] + rest);
    if token != [] && 59 !in token {
      FirstToken(token, rest);
      OnlyToken(token);
    }
  }

  lemma OnlyToken(token: seq<byte>)
    requires token != [] && 59 !in token
    ensures Strtok(token) == Some((token, []))
  {
    assert Leading(token, 0) == 0 && Find(token, SEMICOLON, 0) == |token|;
    assert token[0..|token|] == token;
  }

  lemma {:induction false} LeadingShift(s: seq<byte>, i: nat)
    requires i <= |s|
    ensures Leading([59] + s, i + 1) == Leading(s, i) + 1
    decreases |s| - i
  {
    if i < |s| {
      LeadingShift(s, i + 1);
    }
  }

  lemma {:induction false} FindShift(s: seq<byte>, i: nat)
    requires i <= |s|
    ensures Find([59] + s, SEMICOLON, i + 1) == Find(s, SEMICOLON, i) + 1
    decreases |s| - i
  {
    if i < |s| {
      FindShift(s, i + 1);
    }
  }

  lemma StrtokIs(s: seq<byte>, ptr: nat, end: nat, token: seq<byte>, rest: seq<byte>)
    requires ptr == Leading(s, 0) < |s| && end == Find(s, SEMICOLON, ptr)
    requires token == s[ptr..end] && rest == if end < |s| then s[end + 1..] else []
    ensures Strtok(s) == Some((token, rest))
  {
  }

  /** One semicolon more in front moves the token on by one place. */
  lemma PlacesShift(s: seq<byte>, t: seq<byte>, ptr: nat, end: nat)
    requires t == [59] + s && ptr == Leading(s, 0) && end == Find(s, SEMICOLON, ptr)
    ensures Leading(t, 0) == ptr + 1 && Find(t, SEMICOLON, ptr + 1) == end + 1
  {
    LeadingShift(s, 0);
    FindShift(s, ptr);
  }

  lemma PiecesShift(s: seq<byte>, t: seq<byte>, ptr: nat, end: nat)
    requires t == [59] + s && ptr <= end <= |s|
    ensures t[ptr + 1..end + 1] == s[ptr..end]
    ensures (if end + 1 < |t| then t[end + 2..] else []) == (if end < |s| then s[end + 1..] else [])
  {
  }

  lemma SemicolonSkipped(s: seq<byte>, t: seq<byte>)
    requires t == [59] + s
    ensures Strtok(t) == Strtok(s)
  {
    var ptr := Leading(s, 0);
    var end := Find(s, SEMICOLON, ptr);
    PlacesShift(s, t, ptr, end);
    if ptr < |s| {
      PiecesShift(s, t, ptr, end);
      var token, rest := s[ptr..end], if end < |s| then s[end + 1..] else [];
      StrtokIs(s, ptr, end, token, rest);
      StrtokIs(t, ptr + 1, end + 1, token, rest);
    }
  }

  lemma JoinThree(a: seq<byte>, b: seq<byte>, c: seq<byte>)
    ensures Join([a, b, c]) == a + [COLON] + (b + [COLON] + c)
  {
    assert [a, b, c][1..] == [b, c] && [b, c][1..] == [c];
    assert Join([b, c]) == b + [COLON] + Join([c]);
  }

  lemma ResponseJoin(version: seq<byte>, cmd: seq<byte>, payload: seq<byte>)
    ensures Response(version, cmd, payload) == Join([version, Ascii("response"), cmd]) + [SEMICOLON] + payload
  {
    JoinThree(version, Ascii("response"), cmd);
    assert Ascii(":response:") == [COLON] + Ascii("response") + [COLON];
    assert version + Ascii(":response:") + cmd == version + [COLON] + (Ascii("response") + [COLON] + cmd);
  }

  lemma HeaderFree(version: seq<byte>, cmd: seq<byte>)
    requires version != [] && SEMICOLON !in version && SEMICOLON !in cmd
    ensures var header := Join([version, Ascii("response"), cmd]); header != [] && SEMICOLON !in header
  {
    JoinThree(version, Ascii("response"), cmd);
    assert SEMICOLON !in Ascii("response");
  }

  /**
   Whoever reads the response as requests are read finds the version and the command of
   the request, and the payload as it is, semicolons and colons included.
   */
  lemma ResponseRoundTrip(request: seq<byte>, payload: seq<byte>)
    requires Strtok(request).Some? && |Fields(Strtok(request).value.0, 3)| == 3
    ensures var fields := Fields(Strtok(request).value.0, 3);
      var answer := Strtok(Response(fields[0], fields[2], payload));
      && answer.Some? && answer.value.1 == payload
      && Fields(answer.value.0, 3) == [fields[0], Ascii("response"), fields[2]]
  {
    var token := Strtok(request).value.0;
    var fields := Fields(token, 3);
    TokenFree(request);
    FieldsInside(token, 3, SEMICOLON);
    FieldsPrintable(token, 3);
    var printed := [fields[0], Ascii("response"), fields[2]];
    PrintableAnswer(fields, printed);
    HeaderFree(fields[0], fields[2]);
    ResponseJoin(fields[0], fields[2], payload);
    FirstToken(Join(printed), payload);
    PrintedRead(printed, Join(printed), 3);
  }

  lemma PrintableAnswer(fields: seq<seq<byte>>, printed: seq<seq<byte>>)
    requires |fields| == 3 && Printable(fields) && printed == [fields[0], Ascii("response"), fields[2]]
    ensures Printable(printed)
  {
    assert fields[1..][1..] == [fields[2]] && printed[1..][1..] == [fields[2]];
    assert COLON !in Ascii("response");
  }
}
