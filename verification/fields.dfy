/**
  The `content.includes('|')` split shared by links and images: the first two
  `|`-separated fields, trimmed, or the whole content untouched.
 */
module Fields {
  import opened Wrappers
  import opened Strings

  /**
    `(first, second)`: with a `|`, `parts[0].trim()` and `parts[1].trim()`,
    further fields ignored; without one, the raw content and nothing.
   */
  function PipeFields(content: string): (r: (string, Option<string>))
    ensures '|' !in content ==> r == (content, None)
    ensures '|' in content ==> r.1.Some? && Trimmed(r.0) && Trimmed(r.1.value)
  {
    if '|' in content then
      var parts := SplitOn(content, '|');
      (Trim(parts[0]), Some(Trim(parts[1])))
    else
      (content, None)
  }

  /**
    The fields are read off the content exactly: whatever `a` and `b` are,
    `a|b` followed by nothing or by a further `|`-field gives `a` and `b`
    trimmed.
   */
  lemma PipeFieldsOf(a: string, b: string, rest: string)
    requires '|' !in a && '|' !in b
    requires |rest| == 0 || rest[0] == '|'
    ensures PipeFields(a + "|" + b + rest) == (Trim(a), Some(Trim(b)))
  {
    var c := a + "|" + b + rest;
    assert c == a + ['|'] + (b + rest);
    SplitOnFirst(a, '|', b + rest);
    SplitOnHead(b, '|', rest);
    assert c[|a|] == '|';
  }

  /** `content` is `a|b` followed by nothing or by a further `|`-field. */
  predicate PipeShape(content: string, a: string, b: string, rest: string) {
    && '|' !in a && '|' !in b && (|rest| == 0 || rest[0] == '|')
    && content == a + "|" + b + rest
  }

  /** Whichever way the content has that shape, the fields are its trimmed `a` and `b`. */
  lemma PipeFieldsOfShape(content: string)
    ensures forall a, b, rest :: PipeShape(content, a, b, rest) ==> PipeFields(content) == (Trim(a), Some(Trim(b)))
  {
    forall a, b, rest | PipeShape(content, a, b, rest)
      ensures PipeFields(content) == (Trim(a), Some(Trim(b)))
    {
      PipeFieldsOf(a, b, rest);
    }
  }

  /** Conversely, every content with a pipe has that shape. */
  lemma PipeFieldsShape(content: string)
    requires '|' in content
    ensures exists a, b, rest :: PipeShape(content, a, b, rest)
  {
    var a, b, rest := CutAtPipes(content);
  }

  /** Cuts `content` at its first `|` and before its second one, if any. */
  lemma CutAtPipes(content: string) returns (a: string, b: string, rest: string)
    requires '|' in content
    ensures PipeShape(content, a, b, rest)
  {
    var i := IndexOf(content, '|');
    a := content[..i];
    var t := content[i + 1..];
    CutAt(content, i);
    assert [content[i]] == "|";
    b, rest := FieldAndRest(t);
    Assoc(a + "|", b, rest);
  }

  lemma CutAt(s: string, i: nat)
    requires i < |s|
    ensures s == s[..i] + [s[i]] + s[i + 1..]
  {
  }


  /** Cuts `t` before its first `|`, if any. */
  lemma FieldAndRest(t: string) returns (b: string, rest: string)
    ensures '|' !in b && (|rest| == 0 || rest[0] == '|') && t == b + rest
  {
    if '|' in t {
      var j := IndexOf(t, '|');
      b, rest := t[..j], t[j..];
    } else {
      b, rest := t, "";
    }
  }
}
