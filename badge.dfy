/**
 * The `Badge` component: a label with a visual variant whose only logic is
 * its class string, `badge badge--{variant} {className}` passed through
 * JavaScript's `String.prototype.trim`.
 */
module Badge {
  import opened Wrappers

  datatype BadgeVariant = Neutral | Positive | Negative {
    /** The string value of the variant in the source's union type. */
    function Name(): string {
      match this
      case Neutral => "neutral"
      case Positive => "positive"
      case Negative => "negative"
    }
  }

  /**
   * The characters `trim()` removes: the WhiteSpace and LineTerminator
   * productions of ECMAScript (tab, vertical tab, form feed, space,
   * no-break space, byte-order mark, the Space_Separator category, line
   * feed, carriage return, line and paragraph separators).
   */
  predicate IsJsWhitespace(c: char) {
    var code := c as int;
    || code == 0x09 || code == 0x0B || code == 0x0C || code == 0x20
    || code == 0xA0 || code == 0xFEFF
    || code == 0x1680 || (0x2000 <= code <= 0x200A)
    || code == 0x202F || code == 0x205F || code == 0x3000
    || code == 0x0A || code == 0x0D || code == 0x2028 || code == 0x2029
  }

  /** Removes leading whitespace. */
  function TrimStart(s: string): (r: string)
    ensures |r| <= |s| && r == s[|s| - |r|..]
    ensures r == "" || !IsJsWhitespace(r[0])
    ensures forall i :: 0 <= i < |s| - |r| ==> IsJsWhitespace(s[i])
  {
    if s != "" && IsJsWhitespace(s[0]) then TrimStart(s[1..]) else s
  }

  /** Removes trailing whitespace. */
  function TrimEnd(s: string): (r: string)
    ensures |r| <= |s| && r == s[..|r|]
    ensures r == "" || !IsJsWhitespace(r[|r| - 1])
    ensures forall i :: |r| <= i < |s| ==> IsJsWhitespace(s[i])
  {
    if s != "" && IsJsWhitespace(s[|s| - 1]) then TrimEnd(s[..|s| - 1]) else s
  }

  /** `String.prototype.trim`. */
  function Trim(s: string): string {
    TrimEnd(TrimStart(s))
  }

  /** The fixed head of the class string: `badge badge--{variant}`. */
  function Head(variant: BadgeVariant): string {
    "badge badge--" + variant.Name()
  }

  /**
   * Trailing whitespace of a concatenation: it eats into the left part only
   * when the right part is all whitespace.
   */
  lemma {:induction false} TrimEndAppend(a: string, b: string)
    ensures TrimEnd(a + b) == if TrimEnd(b) == "" then TrimEnd(a) else a + TrimEnd(b)
  {
    if b == "" {
      assert a + b == a;
    } else if IsJsWhitespace(b[|b| - 1]) {
      var b' := b[..|b| - 1];
      assert (a + b)[..|a + b| - 1] == a + b';
      TrimEndAppend(a, b');
    }
  }

  /**
   * Trimming `h + " " + c` for a head `h` that neither starts nor ends with
   * whitespace keeps `h`, and keeps `" " + c` minus its trailing whitespace
   * unless `c` is all whitespace.
   */
  lemma TrimJoined(h: string, c: string)
    requires h != "" && !IsJsWhitespace(h[0]) && !IsJsWhitespace(h[|h| - 1])
    ensures Trim(h + " " + c) == if TrimEnd(c) == "" then h else h + " " + TrimEnd(c)
  {
    var full := h + " " + c;
    assert full[0] == h[0];
    assert TrimStart(full) == full;
    TrimEndAppend(h + " ", c);
    TrimEndAppend(h, " ");
  }

  lemma HeadIsTrimmed(variant: BadgeVariant)
    ensures Head(variant) != "" && !IsJsWhitespace(Head(variant)[0])
    ensures !IsJsWhitespace(Head(variant)[|Head(variant)| - 1])
  {
    var n := variant.Name();
    assert Head(variant)[|Head(variant)| - 1] == n[|n| - 1];
  }

  /**
   * The class string of a badge, `variant` defaulting to `neutral` and
   * `className` to "". It always starts with `badge badge--{variant}`;
   * `className` follows after one space with its trailing whitespace
   * removed, and when that leaves nothing the head stands alone.
   */
  function Classes(variant: Option<BadgeVariant>, className: Option<string>): (r: string)
    ensures var h := Head(variant.GetOr(Neutral));
      && |h| <= |r| && r[..|h|] == h
      && r == if TrimEnd(className.GetOr("")) == "" then h else h + " " + TrimEnd(className.GetOr(""))
  {
    var h := Head(variant.GetOr(Neutral));
    HeadIsTrimmed(variant.GetOr(Neutral));
    TrimJoined(h, className.GetOr(""));
    Trim(h + " " + className.GetOr(""))
  }

  /** A class name that does not end in whitespace is appended after one space. */
  lemma ClassesWithExtraClass(variant: BadgeVariant, className: string)
    requires className != "" && !IsJsWhitespace(className[|className| - 1])
    ensures Classes(Some(variant), Some(className)) == "badge badge--" + variant.Name() + " " + className
  {
  }

  /** With no `className` (or an empty one) the class string is exactly the head. */
  lemma ClassesWithoutClassName(variant: Option<BadgeVariant>)
    ensures Classes(variant, None) == Head(variant.GetOr(Neutral))
    ensures Classes(variant, Some("")) == Head(variant.GetOr(Neutral))
  {
    assert TrimEnd("") == "";
  }
}
