/** The string templates of templates/src/string.ts (`string`, `stringRaw`,
    `stringLen`, `char`, `forEachChar`, `replace`, `allocString`) and the
    older `string` template of src/string.ts, as the values they render
    rather than the rendered text. A missing or mistyped argument is `None`;
    a template that requires it fails with the source's message. */
module Strings {
  import opened Wrappers
  import opened Float
  import opened Util
  import opened MemoryLayout

  // ---------------------------------------------------------------------
  // Characters and JavaScript string primitives

  /** A character `String.prototype.trim` removes: the ECMAScript
      WhiteSpace and LineTerminator code points. */
  predicate IsSpace(c: char)
  {
    var n := c as int;
    (0x9 <= n <= 0xD) || n == 0x20 || n == 0xA0 || n == 0x1680 || (0x2000 <= n <= 0x200A)
    || n == 0x2028 || n == 0x2029 || n == 0x202F || n == 0x205F || n == 0x3000 || n == 0xFEFF
  }

  predicate AllSpace(s: string)
  {
    forall i :: 0 <= i < |s| ==> IsSpace(s[i])
  }

  function TrimStart(s: string): string
  {
    if s != [] && IsSpace(s[0]) then TrimStart(s[1..]) else s
  }

  function TrimEnd(s: string): string
  {
    if s != [] && IsSpace(s[|s| - 1]) then TrimEnd(s[..|s| - 1]) else s
  }

  /** `s.trim()`. */
  function Trim(s: string): string
  {
    TrimEnd(TrimStart(s))
  }

  /** Neither end of the string is a space. */
  predicate Trimmed(s: string)
  {
    s == [] || (!IsSpace(s[0]) && !IsSpace(s[|s| - 1]))
  }

  /** `TrimStart` drops a run of spaces from the front and nothing else. */
  lemma {:induction false} TrimStartShape(s: string)
    ensures |TrimStart(s)| <= |s|
    ensures TrimStart(s) == s[|s| - |TrimStart(s)|..]
    ensures AllSpace(s[..|s| - |TrimStart(s)|])
    ensures TrimStart(s) == [] || !IsSpace(TrimStart(s)[0])
  {
    if s != [] && IsSpace(s[0]) {
      TrimStartShape(s[1..]);
      var i := |s[1..]| - |TrimStart(s[1..])|;
      assert s[1..][i..] == s[i + 1..];
      assert s[..i + 1] == [s[0]] + s[1..][..i];
    }
  }

  /** `TrimEnd` drops a run of spaces from the back and nothing else. */
  lemma {:induction false} TrimEndShape(s: string)
    ensures |TrimEnd(s)| <= |s|
    ensures TrimEnd(s) == s[..|TrimEnd(s)|]
    ensures AllSpace(s[|TrimEnd(s)|..])
    ensures TrimEnd(s) == [] || !IsSpace(TrimEnd(s)[|TrimEnd(s)| - 1])
  {
    if s != [] && IsSpace(s[|s| - 1]) {
      var t := s[..|s| - 1];
      TrimEndShape(t);
      var j := |TrimEnd(t)|;
      assert t[..j] == s[..j];
      assert s[j..] == t[j..] + [s[|s| - 1]];
    }
  }

  /** A string without a space at its end is left alone by `TrimEnd`. */
  lemma TrimEndKeeps(s: string)
    requires s == [] || !IsSpace(s[|s| - 1])
    ensures TrimEnd(s) == s
  {
  }

  /** `trim()` cuts a run of spaces off each end and nothing else: the
      result is the slice s[i..j] for i spaces in front and |s| - j behind,
      and neither of its own ends is a space. */
  lemma TrimShape(s: string)
    ensures var i := |s| - |TrimStart(s)|;
            && 0 <= i <= i + |Trim(s)| <= |s|
            && Trim(s) == s[i..i + |Trim(s)|]
            && AllSpace(s[..i]) && AllSpace(s[i + |Trim(s)|..])
    ensures Trimmed(Trim(s))
  {
    TrimSlice(s);
    TrimIsTrimmed(s);
  }

  lemma TrimSlice(s: string)
    ensures var i := |s| - |TrimStart(s)|;
            && 0 <= i <= i + |Trim(s)| <= |s|
            && Trim(s) == s[i..i + |Trim(s)|]
            && AllSpace(s[..i]) && AllSpace(s[i + |Trim(s)|..])
  {
    TrimStartShape(s);
    var i := |s| - |TrimStart(s)|;
    var t := TrimStart(s);
    TrimEndShape(t);
    var j := |TrimEnd(t)|;
    assert t[..j] == s[i..i + j];
    assert t[j..] == s[i + j..];
  }

  lemma TrimIsTrimmed(s: string)
    ensures Trimmed(Trim(s))
  {
    TrimStartShape(s);
    var t := TrimStart(s);
    TrimEndShape(t);
    if TrimEnd(t) != [] {
      assert TrimEnd(t)[0] == t[0];
    }
  }

  /** A string with no space at either end is its own trim. */
  lemma TrimKeeps(s: string)
    requires Trimmed(s)
    ensures Trim(s) == s
  {
    TrimEndKeeps(s);
  }

  /** `toLowerCase()` on one character, for the ASCII letters. */
  function LowerChar(c: char): char
  {
    if 'A' <= c <= 'Z' then (c as int + 32) as char else c
  }

  /** `s.toLowerCase()`: every upper-case ASCII letter made lower case. */
  function Lower(s: string): (r: string)
    ensures |r| == |s|
  {
    seq(|s|, i requires 0 <= i < |s| => LowerChar(s[i]))
  }

  /** Lower-casing keeps each character's position, changes only the
      letters A-Z, and leaves no upper-case ASCII letter. */
  lemma LowerShape(s: string)
    ensures forall i :: 0 <= i < |s| ==> Lower(s)[i] == if 'A' <= s[i] <= 'Z' then (s[i] as int + 32) as char else s[i]
    ensures forall i :: 0 <= i < |s| ==> !('A' <= Lower(s)[i] <= 'Z')
    ensures forall i :: 0 <= i < |s| ==> (IsSpace(Lower(s)[i]) <==> IsSpace(s[i]))
  {
  }

  /** Lower-casing twice is lower-casing once. */
  lemma LowerIdempotent(s: string)
    ensures Lower(Lower(s)) == Lower(s)
  {
    LowerShape(s);
  }

  /** `value.trim().toLowerCase()`: how registry names and the older
      `string` template normalise their input. */
  function Normalize(s: string): string
  {
    Lower(Trim(s))
  }

  /** Normalising a normalised name changes nothing, so a name may be
      normalised again by every entry point without effect. */
  lemma NormalizeIdempotent(s: string)
    ensures Normalize(Normalize(s)) == Normalize(s)
  {
    var t := Trim(s);
    TrimShape(s);
    LowerShape(t);
    assert Trimmed(Lower(t));
    TrimKeeps(Lower(t));
    LowerIdempotent(t);
  }

  /** The normal form has no space at either end and no upper-case ASCII
      letter. */
  lemma NormalizeShape(s: string)
    ensures Trimmed(Normalize(s))
    ensures forall i :: 0 <= i < |Normalize(s)| ==> !('A' <= Normalize(s)[i] <= 'Z')
  {
    TrimShape(s);
    LowerShape(Trim(s));
  }

  /** Occurrence of `f` at position i of s. */
  predicate OccursAt(s: string, f: string, i: nat)
  {
    i + |f| <= |s| && s[i..i + |f|] == f
  }

  /** `s.replaceAll(f, r)` for a string pattern and a replacement without
      `$` patterns: left-to-right, non-overlapping matches; an empty pattern
      matches before every character and at the end. */
  function ReplaceAll(s: string, f: string, r: string): string
    decreases |s|
  {
    if |f| == 0 then Interleave(s, r)
    else if |s| < |f| then s
    else if s[..|f|] == f then r + ReplaceAll(s[|f|..], f, r)
    else [s[0]] + ReplaceAll(s[1..], f, r)
  }

  /** `s.replaceAll("", r)`: r before every character and once more at the end. */
  function Interleave(s: string, r: string): (out: string)
  {
    if s == [] then r else r + [s[0]] + Interleave(s[1..], r)
  }

  /** An empty pattern inserts |s| + 1 copies of the replacement. */
  lemma {:induction false} InterleaveLength(s: string, r: string)
    ensures |ReplaceAll(s, "", r)| == |s| + (|s| + 1) * |r|
  {
    if s != [] {
      InterleaveLength(s[1..], r);
    }
  }

  /** Replacing a pattern by itself changes nothing. */
  lemma {:induction false} ReplaceAllSelf(s: string, f: string)
    requires |f| > 0
    ensures ReplaceAll(s, f, f) == s
    decreases |s|
  {
    if |s| >= |f| {
      if s[..|f|] == f {
        ReplaceAllSelf(s[|f|..], f);
        assert s == f + s[|f|..];
      } else {
        ReplaceAllSelf(s[1..], f);
        assert s == [s[0]] + s[1..];
      }
    }
  }

  /** Without an occurrence of the pattern the string is unchanged. */
  lemma {:induction false} ReplaceAllAbsent(s: string, f: string, r: string)
    requires |f| > 0
    requires forall i :: 0 <= i <= |s| ==> !OccursAt(s, f, i)
    ensures ReplaceAll(s, f, r) == s
    decreases |s|
  {
    if |s| >= |f| {
      assert !OccursAt(s, f, 0);
      assert s[0..|f|] == s[..|f|];
      forall i | 0 <= i <= |s[1..]|
        ensures !OccursAt(s[1..], f, i)
      {
        if i + |f| <= |s[1..]| {
          assert !OccursAt(s, f, i + 1);
          assert s[1..][i..i + |f|] == s[i + 1..i + 1 + |f|];
        }
      }
      ReplaceAllAbsent(s[1..], f, r);
      assert s == [s[0]] + s[1..];
    }
  }

  /** A string of which no character starts the pattern keeps it unchanged. */
  lemma ReplaceAllNoStart(s: string, f: string, r: string)
    requires |f| > 0
    requires forall i :: 0 <= i < |s| ==> s[i] != f[0]
    ensures ReplaceAll(s, f, r) == s
  {
    forall i | 0 <= i <= |s|
      ensures !OccursAt(s, f, i)
    {
      if i + |f| <= |s| {
        assert s[i..i + |f|][0] == s[i];
      }
    }
    ReplaceAllAbsent(s, f, r);
  }

  /** An occurrence at the front is replaced and the scan resumes after it. */
  lemma ReplaceAllFront(f: string, rest: string, r: string)
    requires |f| > 0
    ensures ReplaceAll(f + rest, f, r) == r + ReplaceAll(rest, f, r)
  {
    assert (f + rest)[..|f|] == f;
    assert (f + rest)[|f|..] == rest;
  }

  // ---------------------------------------------------------------------
  // Decimal rendering

  function DigitChar(d: nat): (c: char)
    requires d < 10
    ensures '0' <= c <= '9' && c as int - '0' as int == d
  {
    (d + '0' as int) as char
  }

  /** `n.toString()` for a natural number. */
  function NatToString(n: nat): (s: string)
    ensures |s| >= 1
    ensures forall i :: 0 <= i < |s| ==> '0' <= s[i] <= '9'
  {
    if n < 10 then [DigitChar(n)] else NatToString(n / 10) + [DigitChar(n % 10)]
  }

  /** The number a string of decimal digits denotes. */
  function DecimalValue(s: string): nat
    requires forall i :: 0 <= i < |s| ==> '0' <= s[i] <= '9'
  {
    if s == [] then 0 else 10 * DecimalValue(s[..|s| - 1]) + (s[|s| - 1] as int - '0' as int)
  }

  /** The rendering reads back as the number, without a leading zero. */
  lemma {:induction false} NatToStringValue(n: nat)
    ensures DecimalValue(NatToString(n)) == n
    ensures NatToString(n)[0] == '0' ==> n == 0
  {
    if n >= 10 {
      NatToStringValue(n / 10);
      var s := NatToString(n);
      assert s[..|s| - 1] == NatToString(n / 10);
      assert s[0] == NatToString(n / 10)[0];
    }
  }

  // ---------------------------------------------------------------------
  // Templates

  /** "A value is required!" and the other argument errors, by message. */
  type Message = string

  /** `string!(value)`: the words of the value's character codes. */
  function StringTemplate(value: Option<string>): Result<seq<int>, Message>
  {
    if value.None? then Failure("A value is required!") else Success(Encode(CharCodes(value.value)))
  }

  /** `stringRaw!(value)`: the character codes themselves. */
  function StringRaw(value: Option<string>): Result<seq<int>, Message>
  {
    if value.None? then Failure("A value is required!") else Success(CharCodes(value.value))
  }

  /** `string!` packs exactly what `stringRaw!` lists, ceil(n / 6) words for
      n characters, and for character codes below 256 unpacking the words
      gives the codes back followed by zeros. */
  lemma StringTemplateWords(value: Option<string>)
    ensures StringTemplate(value).Failure? <==> value.None?
    ensures StringRaw(value).Success? ==>
      && StringTemplate(value).value == Encode(StringRaw(value).value)
      && |StringTemplate(value).value| == CeilDiv(|value.value|, BytesPerFloat)
    ensures value.Some? && (forall i :: 0 <= i < |value.value| ==> value.value[i] as int < 256) ==>
      Decode(StringTemplate(value).value)[..|value.value|] == CharCodes(value.value)
  {
    if value.Some? && (forall i :: 0 <= i < |value.value| ==> value.value[i] as int < 256) {
      var codes := CharCodes(value.value);
      DecodeEncode(codes);
      assert (codes + seq(BytesPerFloat * CeilDiv(|codes|, BytesPerFloat) - |codes|, _ => 0))[..|codes|] == codes;
    }
  }

  /** The older `string!(value)`: trimmed and lower-cased, then packed. */
  function LegacyStringTemplate(value: Option<string>): Result<seq<int>, Message>
  {
    if value.None? then Failure("A value is required!") else Success(Encode(CharCodes(Normalize(value.value))))
  }

  /** The older template packs the normal form, so inputs that differ only
      in surrounding spaces or ASCII case give the same words. */
  lemma LegacyStringNormalizes(a: string, b: string)
    requires Normalize(a) == Normalize(b)
    ensures LegacyStringTemplate(Some(a)) == LegacyStringTemplate(Some(b))
    ensures LegacyStringTemplate(Some(a)) == StringTemplate(Some(Normalize(a)))
    ensures |LegacyStringTemplate(Some(a)).value| == CeilDiv(|Normalize(a)|, BytesPerFloat)
  {
  }

  /** `stringLen!(value)`: the character count, in decimal. */
  function StringLen(value: Option<string>): Result<string, Message>
  {
    if value.None? then Failure("A value is required!") else Success(NatToString(|value.value|))
  }

  /** `stringLen!` renders the number of characters. */
  lemma StringLenValue(s: string)
    ensures StringLen(Some(s)).Success?
    ensures DecimalValue(StringLen(Some(s)).value) == |s|
  {
    NatToStringValue(|s|);
  }

  /** `char!(value)`: the first character's code in decimal; `charCodeAt(0)`
      of the empty string is NaN, rendered as "NaN". */
  function CharTemplate(value: Option<string>): Result<string, Message>
  {
    if value.None? then Failure("A value is required!")
    else if value.value == [] then Success("NaN")
    else Success(NatToString(value.value[0] as int))
  }

  /** `char!` renders the first character's code, and "NaN" for "". */
  lemma CharTemplateValue(s: string)
    ensures s == [] ==> CharTemplate(Some(s)) == Success("NaN")
    ensures s != [] ==> DecimalValue(CharTemplate(Some(s)).value) == s[0] as int
  {
    if s != [] {
      NatToStringValue(s[0] as int);
    }
  }

  /** `replace!(find, replace, code)`: every occurrence of `find` in the block
      replaced. */
  function ReplaceTemplate(find: Option<string>, replacement: Option<string>, code: Option<string>): Result<string, Message>
  {
    if find.None? then Failure("A search string is required!")
    else if replacement.None? then Failure("A replace string is required!")
    else if code.None? then Failure("A piece of code to run is required!")
    else Success(ReplaceAll(code.value, find.value, replacement.value))
  }

  /** `replace!` fails exactly on a missing argument, reporting the first
      one missing, and replacing a string by itself returns the block. */
  lemma ReplaceTemplateShape(find: Option<string>, replacement: Option<string>, code: Option<string>)
    ensures ReplaceTemplate(find, replacement, code).Failure? <==> find.None? || replacement.None? || code.None?
    ensures find.Some? && code.Some? && |find.value| > 0 ==>
      ReplaceTemplate(find, find, code) == Success(code.value)
  {
    if find.Some? && code.Some? && |find.value| > 0 {
      ReplaceAllSelf(code.value, find.value);
    }
  }

  /** A quote or backslash is prefixed with a backslash. */
  function Escape(c: char): (e: string)
  {
    if c == '"' || c == '\\' then ['\\', c] else [c]
  }

  /** The block for one character: "CHARCODE" replaced by the code first,
      then "CHAR" by the escaped character. */
  function Piece(code: string, c: char): string
  {
    ReplaceAll(ReplaceAll(code, "CHARCODE", NatToString(c as int)), "CHAR", Escape(c))
  }

  /** Because "CHARCODE" is replaced first, it renders the code and not the
      character followed by "CODE"; "CHAR" alone renders the escaped
      character. */
  lemma PiecePlaceholders(c: char)
    ensures Piece("CHARCODE", c) == NatToString(c as int)
    ensures Piece("CHAR", c) == Escape(c)
  {
    var d := NatToString(c as int);
    ReplaceAllFront("CHARCODE", [], d);
    assert "CHARCODE" + [] == "CHARCODE";
    assert ReplaceAll("CHARCODE", "CHARCODE", d) == d;
    assert "CHAR"[0] == 'C';
    ReplaceAllNoStart(d, "CHAR", Escape(c));
    ReplaceAllFront("CHAR", [], Escape(c));
    assert "CHAR" + [] == "CHAR";
  }

  /** The pieces joined by a separator. */
  function JoinWith(parts: seq<string>, sep: string): string
  {
    if parts == [] then []
    else if |parts| == 1 then parts[0]
    else JoinWith(parts[..|parts| - 1], sep) + sep + parts[|parts| - 1]
  }

  /** Joining one more piece appends the separator and the piece. */
  lemma JoinStep(parts: seq<string>, sep: string, i: nat)
    requires i < |parts|
    ensures JoinWith(parts[..i + 1], sep) == if i == 0 then parts[0] else JoinWith(parts[..i], sep) + sep + parts[i]
  {
    assert parts[..i + 1][..i] == parts[..i];
  }

  /** `getString(args, i) || d`: an absent or empty string falls back to d. */
  function OrDefault(s: Option<string>, d: string): string
  {
    if s.None? || s.value == [] then d else s.value
  }

  /** The block instantiated for each character in turn. */
  function Pieces(characters: string, code: string): (ps: seq<string>)
    ensures |ps| == |characters|
  {
    seq(|characters|, i requires 0 <= i < |characters| => Piece(code, characters[i]))
  }

  /** What `forEachChar!(characters, code, separator?, before?, after?)`
      returns: the pieces joined by the separator (a newline by default),
      between `before` and `after`. */
  function ForEachCharOf(characters: string, code: string, separator: Option<string>, before: Option<string>, after: Option<string>): string
  {
    OrDefault(before, "") + JoinWith(Pieces(characters, code), OrDefault(separator, "\n")) + OrDefault(after, "")
  }

  /** `forEachChar!`: the loop appending one piece per character and the
      separator between consecutive pieces. */
  method ForEachChar(characters: Option<string>, code: Option<string>, separator: Option<string>, before: Option<string>, after: Option<string>)
    returns (r: Result<string, Message>)
    ensures characters.None? ==> r == Failure("A character list is required!")
    ensures characters.Some? && code.None? ==> r == Failure("A piece of code to run is required!")
    ensures characters.Some? && code.Some? ==> r == Success(ForEachCharOf(characters.value, code.value, separator, before, after))
  {
    if characters.None? {
      return Failure("A character list is required!");
    }
    if code.None? {
      return Failure("A piece of code to run is required!");
    }
    var out := JoinPieces(characters.value, code.value, OrDefault(separator, "\n"));
    r := Success(OrDefault(before, "") + out + OrDefault(after, ""));
  }

  /** The loop of `forEachChar!`: per character, the block with "CHARCODE"
      and then "CHAR" replaced, and the separator unless it is the last. */
  method JoinPieces(split: string, code: string, sep: string) returns (out: string)
    ensures out == JoinWith(Pieces(split, code), sep)
  {
    ghost var pieces := Pieces(split, code);
    out := "";
    var i := 0;
    while i < |split|
      invariant 0 <= i <= |split|
      invariant out == JoinWith(pieces[..i], sep) + (if 0 < i < |split| then sep else "")
    {
      var character := split[i];
      var escapedChar := Escape(character);
      JoinStep(pieces, sep, i);
      out := out + ReplaceAll(ReplaceAll(code, "CHARCODE", NatToString(character as int)), "CHAR", escapedChar);
      if i != |split| - 1 {
        out := out + sep;
      }
      i := i + 1;
    }
    assert pieces[..|split|] == pieces;
  }

  /** With a block "CHARCODE" the template lists the character codes in
      decimal, one per character, separated as given. */
  lemma ForEachCharCodes(characters: string, separator: Option<string>, before: Option<string>, after: Option<string>)
    ensures ForEachCharOf(characters, "CHARCODE", separator, before, after)
         == OrDefault(before, "")
            + JoinWith(seq(|characters|, i requires 0 <= i < |characters| => NatToString(characters[i] as int)), OrDefault(separator, "\n"))
            + OrDefault(after, "")
  {
    var a := Pieces(characters, "CHARCODE");
    var b := seq(|characters|, i requires 0 <= i < |characters| => NatToString(characters[i] as int));
    forall i | 0 <= i < |characters|
      ensures a[i] == b[i]
    {
      PiecePlaceholders(characters[i]);
    }
    assert a == b;
  }

  /** A missing or empty separator means a newline, and n characters give
      n pieces with n - 1 separators between them. */
  lemma {:induction false} JoinWithLength(parts: seq<string>, sep: string, len: nat)
    requires forall i :: 0 <= i < |parts| ==> |parts[i]| == len
    ensures |JoinWith(parts, sep)| == |parts| * len + (if parts == [] then 0 else (|parts| - 1) * |sep|)
  {
    if |parts| > 1 {
      JoinWithLength(parts[..|parts| - 1], sep, len);
    }
  }

  /** A separator of "" falls back to a newline, as an absent one does. */
  lemma ForEachCharDefaultSeparator(characters: string, code: string, before: Option<string>, after: Option<string>)
    ensures ForEachCharOf(characters, code, Some(""), before, after) == ForEachCharOf(characters, code, None, before, after)
    ensures ForEachCharOf(characters, code, Some(""), before, after) == ForEachCharOf(characters, code, Some("\n"), before, after)
  {
  }

  /** The storage `allocString!` reserves and the writes it emits. */
  datatype Allocation = Allocation(capacity: nat, length: nat, writes: seq<(nat, int)>)

  /** `ceil((len / BYTES_PER_FLOAT) / MEMORY_BLOCK_SIZE) * MEMORY_BLOCK_SIZE`. */
  function AllocCapacity(len: nat): nat
  {
    CeilDiv(len, BytesPerFloat * MemoryBlockSize) * MemoryBlockSize
  }

  /** The capacity is the least multiple of `MEMORY_BLOCK_SIZE` that holds
      the string's words. */
  lemma AllocCapacityBounds(len: nat)
    ensures AllocCapacity(len) % MemoryBlockSize == 0
    ensures AllocCapacity(len) >= CeilDiv(len, BytesPerFloat)
    ensures AllocCapacity(len) < CeilDiv(len, BytesPerFloat) + MemoryBlockSize
  {
    CeilDivBounds(len, BytesPerFloat * MemoryBlockSize);
    CeilDivBounds(len, BytesPerFloat);
  }

  /** What `allocString!` sets: the capacity, the length, and one
      `w_rite(addr, idx, word)` per word of the string. */
  function AllocationOf(str: string): Allocation
  {
    var words := Encode(CharCodes(str));
    Allocation(AllocCapacity(|str|), |str|, seq(|words|, i requires 0 <= i < |words| => (i, words[i])))
  }

  /** `allocString!(str, addrVar, lengthVar, capVar)`: the four arguments
      checked in order, then the capacity and one write per encoded word. */
  method AllocString(str: Option<string>, addrVar: Option<string>, lengthVar: Option<string>, capVar: Option<string>)
    returns (r: Result<Allocation, Message>)
    ensures str.None? ==> r == Failure("A string to allocate is required!")
    ensures str.Some? && addrVar.None? ==> r == Failure("An address variable is required!")
    ensures str.Some? && addrVar.Some? && lengthVar.None? ==> r == Failure("A length variable is required!")
    ensures str.Some? && addrVar.Some? && lengthVar.Some? && capVar.None? ==> r == Failure("A capacity variable is required!")
    ensures str.Some? && addrVar.Some? && lengthVar.Some? && capVar.Some? ==> r == Success(AllocationOf(str.value))
  {
    if str.None? {
      return Failure("A string to allocate is required!");
    }
    if addrVar.None? {
      return Failure("An address variable is required!");
    }
    if lengthVar.None? {
      return Failure("A length variable is required!");
    }
    if capVar.None? {
      return Failure("A capacity variable is required!");
    }
    var numFloats := CeilDiv(|str.value|, BytesPerFloat * MemoryBlockSize) * MemoryBlockSize;
    var encodedFloats := FromManyBytes(CharCodes(str.value), 0);
    var writes: seq<(nat, int)> := [];
    for idx := 0 to |encodedFloats|
      invariant writes == seq(idx, i requires 0 <= i < idx => (i, encodedFloats[i]))
    {
      writes := writes + [(idx, encodedFloats[idx])];
    }
    r := Success(Allocation(numFloats, |str.value|, writes));
  }

  /** Every word of the string is written at its own index, and all of
      them fit in the capacity reserved. */
  lemma AllocationFits(str: string)
    ensures var a := AllocationOf(str);
            && |a.writes| == CeilDiv(|str|, BytesPerFloat) <= a.capacity
            && a.capacity % MemoryBlockSize == 0
            && (forall k :: 0 <= k < |a.writes| ==> a.writes[k].0 == k < a.capacity)
  {
    AllocCapacityBounds(|str|);
  }
}
