/** The in-memory log tail server.js publishes to its dashboard (`WEB.logs`):
    each new line goes to the front, and the oldest line falls off once the
    buffer exceeds its capacity. */
module LogBuffer {

  const Capacity: nat := 100

  /** `WEB.logs.unshift(s); if (WEB.logs.length > 100) WEB.logs.pop();` */
  function Push(logs: seq<string>, line: string): (r: seq<string>)
    ensures 0 < |r| <= |logs| + 1 && r[0] == line
    ensures r[1..] == logs[..|r| - 1]
    ensures |logs| <= Capacity ==> |r| <= Capacity
    ensures |logs| <= Capacity ==> |r| == Min(|logs| + 1, Capacity)
  {
    var grown := [line] + logs;
    if |grown| > Capacity then grown[..|grown| - 1] else grown
  }

  function Reverse<T>(s: seq<T>): (r: seq<T>)
    ensures |r| == |s|
    ensures forall i :: 0 <= i < |s| ==> r[i] == s[|s| - 1 - i]
  {
    if |s| == 0 then [] else [s[|s| - 1]] + Reverse(s[..|s| - 1])
  }

  /** The buffer after logging `lines` in order, starting empty. */
  function Feed(lines: seq<string>): seq<string>
    decreases |lines|
  {
    if |lines| == 0 then [] else Push(Feed(lines[..|lines| - 1]), lines[|lines| - 1])
  }

  function Min(a: nat, b: nat): nat {
    if a < b then a else b
  }

  /** The buffer always holds the most recent lines, newest first, and never
      more than `Capacity` of them. */
  lemma {:induction false} FeedKeepsNewest(lines: seq<string>)
    ensures Feed(lines) == Reverse(lines)[..Min(|lines|, Capacity)]
    decreases |lines|
  {
    if |lines| > 0 {
      var n := |lines|;
      var init := lines[..n - 1];
      FeedKeepsNewest(init);
      var prev := Feed(init);
      var r := Feed(lines);
      var want := Reverse(lines)[..Min(n, Capacity)];
      assert Reverse(lines) == [lines[n - 1]] + Reverse(init);
      assert |r| == |want|;
      forall i | 0 <= i < |r|
        ensures r[i] == want[i]
      {
        if i > 0 {
          assert r[i] == r[1..][i - 1] == prev[i - 1];
        }
      }
    }
  }
}
