/**
 * Splitting an MQTT topic into its `/`-separated segments, with the
 * semantics of Python's `str.split(sep)`: the result always has at least
 * one segment, an empty input gives one empty segment, and adjacent or
 * trailing separators give empty segments.
 */
module Topics {
  import opened Wrappers

  /** The separator between topic levels. */
  const Separator: char := '/'

  /** Number of occurrences of `d` in `s`. */
  function Count(s: string, d: char): nat
  {
    if |s| == 0 then 0 else (if s[0] == d then 1 else 0) + Count(s[1..], d)
  }

  /** `s.split(d)`: the maximal runs of `s` between occurrences of `d`. */
  function Split(s: string, d: char): (parts: seq<string>)
    ensures |parts| >= 1
    ensures forall i :: 0 <= i < |parts| ==> d !in parts[i]
  {
    if |s| == 0 then [""]
    else
      var rest := Split(s[1..], d);
      if s[0] == d then [""] + rest
      else [[s[0]] + rest[0]] + rest[1..]
  }

  /** `d.join(parts)`, the inverse of `Split`. */
  function Join(parts: seq<string>, d: char): string
    requires |parts| >= 1
  {
    if |parts| == 1 then parts[0] else parts[0] + [d] + Join(parts[1..], d)
  }

  /** One more segment than there are separators. */
  lemma {:induction false} SplitLength(s: string, d: char)
    ensures |Split(s, d)| == Count(s, d) + 1
  {
    if |s| > 0 {
      SplitLength(s[1..], d);
    }
  }

  /** Joining the segments back gives the original string. */
  lemma {:induction false} JoinSplit(s: string, d: char)
    ensures Join(Split(s, d), d) == s
  {
    if |s| > 0 {
      var rest := Split(s[1..], d);
      JoinSplit(s[1..], d);
      if s[0] == d {
        assert Split(s, d)[1..] == rest;
        assert [s[0]] + s[1..] == s;
      } else {
        var parts := Split(s, d);
        assert parts[0] == [s[0]] + rest[0];
        if |rest| == 1 {
          assert s == [s[0]] + rest[0];
        } else {
          assert parts[1..] == rest[1..];
          assert Join(parts, d) == [s[0]] + rest[0] + [d] + Join(rest[1..], d);
          assert Join(rest, d) == rest[0] + [d] + Join(rest[1..], d);
          assert [s[0]] + s[1..] == s;
        }
      }
    }
  }

  /** Prefixing a segment-free string `x` extends the first segment only. */
  lemma {:induction false} SplitPrefix(x: string, t: string, d: char)
    requires d !in x
    ensures Split(x + t, d) == [x + Split(t, d)[0]] + Split(t, d)[1..]
  {
    if |x| > 0 {
      SplitPrefix(x[1..], t, d);
      assert (x + t)[1..] == x[1..] + t;
      assert (x + t)[0] == x[0];
      assert [x[0]] + (x[1..] + Split(t, d)[0]) == x + Split(t, d)[0];
    } else {
      assert x + t == t;
      assert x + Split(t, d)[0] == Split(t, d)[0];
      assert Split(t, d) == [Split(t, d)[0]] + Split(t, d)[1..];
    }
  }

  /** Splitting the join of separator-free segments gives the segments back. */
  lemma {:induction false} SplitJoin(parts: seq<string>, d: char)
    requires |parts| >= 1
    requires forall i :: 0 <= i < |parts| ==> d !in parts[i]
    ensures Split(Join(parts, d), d) == parts
  {
    if |parts| == 1 {
      SplitPrefix(parts[0], "", d);
      assert parts[0] + "" == parts[0];
    } else {
      var tail := Join(parts[1..], d);
      SplitJoin(parts[1..], d);
      assert Split([d] + tail, d) == [""] + parts[1..];
      assert parts[0] + [d] + tail == parts[0] + ([d] + tail);
      SplitPrefix(parts[0], [d] + tail, d);
      assert parts[0] + "" == parts[0];
      assert [parts[0]] + parts[1..] == parts;
    }
  }

  /**
   * The guard and field selection of the message handler: `None` when the
   * topic has fewer than four segments, otherwise segment 2 (the MAC
   * address) and segment 3 (the measurement name).
   */
  function ParseTopic(topic: string): (r: Option<(string, string)>)
    ensures r.Some? ==> Separator !in r.value.0 && Separator !in r.value.1
  {
    var parts := Split(topic, Separator);
    if |parts| < 4 then None else Some((parts[2], parts[3]))
  }

  /** A topic is dropped exactly when it holds fewer than three separators. */
  lemma ParseTopicDrops(topic: string)
    ensures ParseTopic(topic) == None <==> Count(topic, Separator) < 3
  {
    SplitLength(topic, Separator);
  }

  /**
   * For any topic built from four or more separator-free levels, the MAC
   * address is level 2 and the measurement is level 3; later levels are
   * ignored.
   */
  lemma ParseTopicOfLevels(levels: seq<string>)
    requires |levels| >= 4
    requires forall i :: 0 <= i < |levels| ==> Separator !in levels[i]
    ensures ParseTopic(Join(levels, Separator)) == Some((levels[2], levels[3]))
  {
    SplitJoin(levels, Separator);
  }
}
