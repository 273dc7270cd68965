/**
 * Search metadata attached to every Menu and Item node of a dropdown menu tree:
 * the raw label and its normalised form, which is what searches match against.
 *
 * `trim` is modelled over the exact set of characters JavaScript's
 * `String.prototype.trim` removes; `toLowerCase` is modelled for ASCII letters only.
 */
module SearchMetadata {
  import opened Wrappers

  datatype TreeSearchMetadata = TreeSearchMetadata(raw: string, text: string)

  /** WhiteSpace and LineTerminator code points of ECMAScript, the characters `trim` strips. */
  predicate IsTrimmable(c: char) {
    var n := c as int;
    n == 0x09 || n == 0x0A || n == 0x0B || n == 0x0C || n == 0x0D || n == 0x20 ||
    n == 0xA0 || n == 0x1680 || (0x2000 <= n <= 0x200A) || n == 0x2028 ||
    n == 0x2029 || n == 0x202F || n == 0x205F || n == 0x3000 || n == 0xFEFF
  }

  predicate IsAsciiUpper(c: char) {
    'A' <= c <= 'Z'
  }

  /** Drops leading trimmable characters: the result is a suffix that does not start with one. */
  function TrimStart(s: string): (r: string)
    ensures |r| <= |s| && r == s[|s| - |r|..]
    ensures r == [] || !IsTrimmable(r[0])
  {
    if s != [] && IsTrimmable(s[0]) then TrimStart(s[1..]) else s
  }

  /** Drops trailing trimmable characters: the result is a prefix that does not end in one. */
  function TrimEnd(s: string): (r: string)
    ensures |r| <= |s| && r == s[..|r|]
    ensures r == [] || !IsTrimmable(r[|r| - 1])
  {
    if s != [] && IsTrimmable(s[|s| - 1]) then TrimEnd(s[..|s| - 1]) else s
  }

  /**
   * `String.prototype.trim`: the result is a stretch `s[i..i + |r|]` of the input, everything
   * before and after it is trimmable, and neither end of it is.
   */
  function Trim(s: string): (r: string)
    ensures |r| <= |s|
    ensures r == [] || (!IsTrimmable(r[0]) && !IsTrimmable(r[|r| - 1]))
    ensures exists i :: 0 <= i <= |s| - |r| && r == s[i..i + |r|] && AllTrimmable(s[..i]) && AllTrimmable(s[i + |r|..])
  {
    var t := TrimStart(s);
    TrimStartDropsTrimmable(s);
    TrimEndDropsTrimmable(t);
    var i := |s| - |t|;
    var r := TrimEnd(t);
    assert r == s[i..i + |r|] && s[i + |r|..] == t[|r|..];
    r
  }

  /** Every character of `s` is trimmable. */
  ghost predicate AllTrimmable(s: string) {
    forall i :: 0 <= i < |s| ==> IsTrimmable(s[i])
  }

  /** Everything `TrimStart` drops is trimmable. */
  lemma {:induction false} TrimStartDropsTrimmable(s: string)
    ensures AllTrimmable(s[..|s| - |TrimStart(s)|])
  {
    if s != [] && IsTrimmable(s[0]) {
      TrimStartDropsTrimmable(s[1..]);
      var n := |s| - |TrimStart(s)|;
      assert s[..n] == [s[0]] + s[1..][..n - 1];
    }
  }

  /** Everything `TrimEnd` drops is trimmable. */
  lemma {:induction false} TrimEndDropsTrimmable(s: string)
    ensures AllTrimmable(s[|TrimEnd(s)|..])
  {
    if s != [] && IsTrimmable(s[|s| - 1]) {
      TrimEndDropsTrimmable(s[..|s| - 1]);
      var n := |TrimEnd(s)|;
      assert s[n..] == s[..|s| - 1][n..] + [s[|s| - 1]];
    }
  }

  function LowerChar(c: char): char {
    if IsAsciiUpper(c) then (c as int + 32) as char else c
  }

  /** `String.prototype.toLowerCase`, restricted to the ASCII letters A-Z. */
  function ToLower(s: string): string {
    seq(|s|, i requires 0 <= i < |s| => LowerChar(s[i]))
  }

  /** Lower-casing neither creates nor removes a trimmable character. */
  lemma LowerCharKeepsTrimmable(c: char)
    ensures IsTrimmable(LowerChar(c)) == IsTrimmable(c)
    ensures !IsAsciiUpper(LowerChar(c))
  {
  }

  /**
   * `normalizeSearchText`: the trimmed text, lower-cased character by character; so it has no
   * upper-case letter and neither end is white space.
   */
  function NormalizeSearchText(text: string): (r: string)
    ensures |r| == |Trim(text)| <= |text|
    ensures forall i :: 0 <= i < |r| ==> r[i] == LowerChar(Trim(text)[i])
    ensures forall i :: 0 <= i < |r| ==> !IsAsciiUpper(r[i])
    ensures r == [] || (!IsTrimmable(r[0]) && !IsTrimmable(r[|r| - 1]))
  {
    LowerKeepsTrimmed(Trim(text));
    ToLower(Trim(text))
  }

  /** Lower-casing leaves no upper-case ASCII letter and keeps both ends non-trimmable. */
  lemma LowerKeepsTrimmed(t: string)
    requires t == [] || (!IsTrimmable(t[0]) && !IsTrimmable(t[|t| - 1]))
    ensures var r := ToLower(t);
      (forall i :: 0 <= i < |r| ==> !IsAsciiUpper(r[i])) &&
      (r == [] || (!IsTrimmable(r[0]) && !IsTrimmable(r[|r| - 1])))
  {
    var r := ToLower(t);
    forall i | 0 <= i < |r|
      ensures !IsAsciiUpper(r[i])
    {
      LowerCharKeepsTrimmable(t[i]);
    }
    if t != [] {
      LowerCharKeepsTrimmable(t[0]);
      LowerCharKeepsTrimmable(t[|t| - 1]);
    }
  }

  /** A text with no leading or trailing trimmable character is its own trim. */
  lemma {:induction false} TrimOfTrimmed(s: string)
    requires s == [] || (!IsTrimmable(s[0]) && !IsTrimmable(s[|s| - 1]))
    ensures Trim(s) == s
  {
    assert TrimStart(s) == s;
    assert TrimEnd(s) == s;
  }

  /** A text with no upper-case ASCII letter is its own lower-case form. */
  lemma LowerOfLower(s: string)
    requires forall i :: 0 <= i < |s| ==> !IsAsciiUpper(s[i])
    ensures ToLower(s) == s
  {
    assert forall i :: 0 <= i < |s| ==> LowerChar(s[i]) == s[i];
  }

  /** Normalising is idempotent: a normalised text is left as it is. */
  lemma {:induction false} NormalizeIdempotent(s: string)
    ensures NormalizeSearchText(NormalizeSearchText(s)) == NormalizeSearchText(s)
  {
    var n := NormalizeSearchText(s);
    TrimOfTrimmed(n);
    LowerOfLower(n);
  }

  /**
   * `createTextSearchMetadata`: an undefined or empty label gives the empty raw text;
   * `text` is always the normalised `raw`.
   */
  function CreateTextSearchMetadata(labelText: Option<string>): (m: TreeSearchMetadata)
    ensures labelText.Some? ==> m.raw == labelText.value
    ensures labelText.None? ==> m.raw == ""
    ensures m.text == NormalizeSearchText(m.raw)
  {
    var raw := if labelText.Some? && labelText.value != "" then labelText.value else "";
    TreeSearchMetadata(raw, NormalizeSearchText(raw))
  }

  /** The invariant every node's metadata keeps: `text` is the normalised `raw`. */
  ghost predicate Normalized(m: TreeSearchMetadata) {
    m.text == NormalizeSearchText(m.raw)
  }

  /** An undefined label yields `{ raw: '', text: '' }`. */
  lemma UndefinedLabelMetadata()
    ensures CreateTextSearchMetadata(None) == TreeSearchMetadata("", "")
  {
    assert |NormalizeSearchText("")| == 0;
  }

  /** Normalising never changes the text of metadata built from a label a second time. */
  lemma {:induction false} MetadataTextIsStable(labelText: Option<string>)
    ensures NormalizeSearchText(CreateTextSearchMetadata(labelText).text) == CreateTextSearchMetadata(labelText).text
  {
    NormalizeIdempotent(CreateTextSearchMetadata(labelText).raw);
  }

  /** The label of the first menu in the source's tests normalises to the text its tests search for. */
  lemma SampleLabel()
    ensures NormalizeSearchText("Menu 1") == "menu 1"
  {
    assert TrimStart("Menu 1") == "Menu 1";
    assert TrimEnd("Menu 1") == "Menu 1";
    assert ToLower("Menu 1") == "menu 1";
  }
}
