/**
  JavaScript's `encodeURI`, which the storage client applies to the whole
  public URL it builds for an object: every character outside the unescaped
  set becomes the `%XX` escapes of its UTF-8 bytes.
 */
module Uri {
  /** The characters `encodeURI` leaves as they are: ASCII letters, digits and `-_.!~*'();/?:@&=+$,#`. */
  predicate Unescaped(c: char) {
    || ('A' <= c <= 'Z') || ('a' <= c <= 'z') || ('0' <= c <= '9')
    || c in "-_.!~*'();/?:@&=+$,#"
  }

  /** A text `encodeURI` returns unchanged. */
  predicate UriSafe(s: string) {
    forall i :: 0 <= i < |s| ==> Unescaped(s[i])
  }

  const HEX: string := "0123456789ABCDEF"

  predicate IsByte(b: int) {
    0 <= b < 256
  }

  /** The UTF-8 encoding of a Unicode scalar value. */
  function Utf8(cp: int): (r: seq<int>)
    requires 0 <= cp < 0x11_0000
    ensures 1 <= |r| <= 4 && (|r| == 1 <==> cp < 0x80)
    ensures forall i :: 0 <= i < |r| ==> IsByte(r[i])
  {
    if cp < 0x80 then [cp]
    else if cp < 0x800 then [0xC0 + cp / 64, 0x80 + cp % 64]
    else if cp < 0x1_0000 then [0xE0 + cp / 4096, 0x80 + (cp / 64) % 64, 0x80 + cp % 64]
    else [0xF0 + cp / 262144, 0x80 + (cp / 4096) % 64, 0x80 + (cp / 64) % 64, 0x80 + cp % 64]
  }

  /** The text of an escape: a percent sign and upper-case hexadecimal digits. */
  predicate EscapeText(s: string) {
    forall i :: 0 <= i < |s| ==> s[i] == '%' || s[i] in HEX
  }

  /** `%XX` per byte, with upper-case hexadecimal digits. */
  function PercentBytes(bytes: seq<int>): (r: string)
    requires forall i :: 0 <= i < |bytes| ==> IsByte(bytes[i])
    ensures |r| == 3 * |bytes| && EscapeText(r)
    ensures bytes != [] ==> r[0] == '%'
  {
    if bytes == [] then []
    else
      var b := bytes[0];
      assert IsByte(b) && |HEX| == 16;
      ['%', HEX[b / 16], HEX[b % 16]] + PercentBytes(bytes[1..])
  }

  /** One character as `encodeURI` writes it. */
  function EncodeChar(c: char): (r: string)
    ensures Unescaped(c) ==> r == [c]
    ensures !Unescaped(c) ==> 3 <= |r| <= 12 && r[0] == '%' && EscapeText(r)
  {
    if Unescaped(c) then [c] else PercentBytes(Utf8(c as int))
  }

  /** `encodeURI(s)`. */
  function EncodeUri(s: string): (r: string)
    ensures |r| >= |s|
  {
    if s == [] then [] else EncodeChar(s[0]) + EncodeUri(s[1..])
  }

  /** Encoding works character by character, so it distributes over concatenation. */
  lemma {:induction false} EncodeUriConcat(a: string, b: string)
    ensures EncodeUri(a + b) == EncodeUri(a) + EncodeUri(b)
  {
    if a == [] {
      assert a + b == b;
    } else {
      assert (a + b)[0] == a[0] && (a + b)[1..] == a[1..] + b;
      EncodeUriConcat(a[1..], b);
    }
  }

  /** `encodeURI` changes a text exactly when one of its characters is outside the unescaped set. */
  lemma EncodeUriUnchanged(s: string)
    ensures EncodeUri(s) == s <==> UriSafe(s)
    ensures UriSafe(s) <==> |EncodeUri(s)| == |s|
  {
    if UriSafe(s) {
      EncodeSafe(s);
    } else {
      EncodeUnsafe(s);
    }
  }

  /** A text of unescaped characters is its own encoding. */
  lemma {:induction false} EncodeSafe(s: string)
    requires UriSafe(s)
    ensures EncodeUri(s) == s
  {
    if s != [] {
      assert Unescaped(s[0]);
      assert UriSafe(s[1..]) by {
        forall i | 0 <= i < |s[1..]| ensures Unescaped(s[1..][i]) {
          assert s[1..][i] == s[i + 1];
        }
      }
      EncodeSafe(s[1..]);
      assert s == [s[0]] + s[1..];
    }
  }

  /** One escaped character makes the encoding longer than the text. */
  lemma {:induction false} EncodeUnsafe(s: string)
    requires !UriSafe(s)
    ensures |EncodeUri(s)| > |s|
  {
    if Unescaped(s[0]) {
      assert !UriSafe(s[1..]) by {
        var i :| 0 <= i < |s| && !Unescaped(s[i]);
        assert s[1..][i - 1] == s[i];
      }
      EncodeUnsafe(s[1..]);
    }
  }

  /** A URI-safe middle passes through the encoding of a text unchanged. */
  lemma EncodeUriSafeMiddle(a: string, m: string, b: string)
    requires UriSafe(m)
    ensures EncodeUri(a + m + b) == EncodeUri(a) + m + EncodeUri(b)
  {
    EncodeUriConcat(a + m, b);
    EncodeUriConcat(a, m);
    EncodeUriUnchanged(m);
  }
}
