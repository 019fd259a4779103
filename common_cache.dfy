/**
 * The process-wide string cache (Server/LuciferCore/Cache/CommonCache.cs): a lazily
 * created single instance holding a dictionary from keys to values, and a textual
 * dump of all entries. The dictionary's enumeration order is not fixed by the
 * source; the dump takes it as the parameter `order`, a listing of every key once.
 *
 * Each line of an entry is built by interpolation and then handed to
 * StringBuilder.AppendFormat as a composite format string with no arguments, so
 * braces inside a key or a value are read as format syntax: a doubled brace is
 * written once and any other brace throws FormatException.
 */
module Caches {
  import opened Wrappers
  import opened Text

  /** Composite-format parsing of a format string without arguments. */
  function Unformat(s: string): (r: Result<string>)
    ensures r.Failure? ==> r.error == "FormatException"
    ensures r.Success? ==> |r.value| <= |s|
    decreases |s|
  {
    if s == [] then Success([])
    else if s[0] == '{' || s[0] == '}' then
      if |s| >= 2 && s[1] == s[0] then
        match Unformat(s[2..])
        case Failure(e) => Failure(e)
        case Success(t) => Success([s[0]] + t)
      else Failure("FormatException")
    else
      match Unformat(s[1..])
      case Failure(e) => Failure(e)
      case Success(t) => Success([s[0]] + t)
  }

  predicate NoBraces(s: string)
  {
    '{' !in s && '}' !in s
  }

  /** Text without braces passes the format parser unchanged; text with a lone brace makes it throw. */
  lemma {:induction false} UnformatPlain(s: string)
    ensures NoBraces(s) ==> Unformat(s) == Success(s)
  {
    if s != [] && NoBraces(s) {
      assert NoBraces(s[1..]) by {
        assert forall c :: c in s[1..] ==> c in s;
      }
      assert s[0] in s;
      UnformatPlain(s[1..]);
      assert s == [s[0]] + s[1..];
    }
  }

  /** Doubling every brace is exactly undone by the format parser. */
  function EscapeBraces(s: string): (r: string)
    ensures |r| >= |s|
  {
    if s == [] then []
    else if s[0] == '{' || s[0] == '}' then [s[0], s[0]] + EscapeBraces(s[1..])
    else [s[0]] + EscapeBraces(s[1..])
  }

  lemma {:induction false} UnformatEscaped(s: string)
    ensures Unformat(EscapeBraces(s)) == Success(s)
  {
    if s != [] {
      UnformatEscaped(s[1..]);
      var e := EscapeBraces(s);
      if s[0] == '{' || s[0] == '}' {
        assert e[0] == s[0] && e[1] == s[0] && e[2..] == EscapeBraces(s[1..]);
      } else {
        assert e[0] == s[0] && e[1..] == EscapeBraces(s[1..]);
      }
      assert s == [s[0]] + s[1..];
    }
  }

  const Open: string := "[\n"
  const Close: string := "]\n"

  /** The lines of one entry as built before formatting. */
  function KeyLine(key: string): string
  {
    "    \"key\": \"" + key + "\",\n"
  }

  function ValueLine(value: string): string
  {
    "    \"value\": \"" + value + "\",\n"
  }

  /** One entry of the dump with its key and value written verbatim. */
  function Block(key: string, value: string): string
  {
    Braced(KeyLine(key), ValueLine(value))
  }

  /** The lines of one entry between the lines that open and close it. */
  function Braced(keyLine: string, valueLine: string): string
  {
    "  {\n" + keyLine + valueLine + "  },\n"
  }

  /** `order` lists every key of `cache` exactly once. */
  ghost predicate Enumerates(order: seq<string>, cache: map<string, string>)
  {
    (forall k :: k in order <==> k in cache)
    && forall i, j :: 0 <= i < j < |order| ==> order[i] != order[j]
  }

  /** The dump as written: each key line and value line goes through the format parser. */
  function FormattedBlocks(cache: map<string, string>, order: seq<string>): Result<string>
    requires forall k :: k in order ==> k in cache
  {
    if order == [] then Success([])
    else match FormattedBlocks(cache, order[..|order| - 1])
      case Failure(e) => Failure(e)
      case Success(blocks) =>
        var last := order[|order| - 1];
        match Unformat(KeyLine(last))
        case Failure(e) => Failure(e)
        case Success(k) =>
          match Unformat(ValueLine(cache[last]))
          case Failure(e) => Failure(e)
          case Success(v) => Success(blocks + Braced(k, v))
  }

  /** The verbatim blocks, in order. */
  function Blocks(cache: map<string, string>, order: seq<string>): string
    requires forall k :: k in order ==> k in cache
  {
    if order == [] then [] else Blocks(cache, order[..|order| - 1]) + Block(order[|order| - 1], cache[order[|order| - 1]])
  }

  /** The blocks of a prefix of the entries are a prefix of the blocks of all of them. */
  lemma {:induction false} BlocksPrefix(cache: map<string, string>, order: seq<string>, n: nat)
    requires forall k :: k in order ==> k in cache
    requires n <= |order|
    ensures Blocks(cache, order[..n]) <= Blocks(cache, order)
    decreases |order| - n
  {
    if n < |order| {
      assert order[..n + 1][..n] == order[..n];
      BlocksPrefix(cache, order, n + 1);
    } else {
      assert order[..n] == order;
    }
  }

  /** Every entry's verbatim block occurs in the blocks, after the blocks of the entries before it. */
  lemma EveryEntryListed(cache: map<string, string>, order: seq<string>, n: nat)
    requires forall k :: k in order ==> k in cache
    requires n < |order|
    ensures OccursAt(Blocks(cache, order), Block(order[n], cache[order[n]]), |Blocks(cache, order[..n])|)
  {
    var whole, pre, b := Blocks(cache, order), Blocks(cache, order[..n]), Block(order[n], cache[order[n]]);
    BlocksPrefix(cache, order, n + 1);
    assert order[..n + 1][..n] == order[..n];
    assert Blocks(cache, order[..n + 1]) == pre + b;
    PrefixOccurs(whole, pre, b);
  }

  /** When `pre + b` starts `s`, `b` occurs in `s` right after `pre`. */
  lemma PrefixOccurs<T>(s: seq<T>, pre: seq<T>, b: seq<T>)
    requires pre + b <= s
    ensures OccursAt(s, b, |pre|)
  {
    assert s[|pre|..|pre| + |b|] == (pre + b)[|pre|..];
  }

  /** The line templates themselves hold no braces. */
  lemma LinesPlain(key: string, value: string)
    requires NoBraces(key) && NoBraces(value)
    ensures NoBraces(KeyLine(key)) && NoBraces(ValueLine(value))
  {
  }

  /** When no key or value holds a brace, the dump as written is the intended one. */
  lemma {:induction false} FormattedIsVerbatim(cache: map<string, string>, order: seq<string>)
    requires forall k :: k in order ==> k in cache && NoBraces(k) && NoBraces(cache[k])
    ensures FormattedBlocks(cache, order) == Success(Blocks(cache, order))
  {
    if order != [] {
      var last := order[|order| - 1];
      FormattedIsVerbatim(cache, order[..|order| - 1]);
      LinesPlain(last, cache[last]);
      UnformatPlain(KeyLine(last));
      UnformatPlain(ValueLine(cache[last]));
    }
  }

  /** A key holding a single '{' makes the dump as written throw. */
  lemma LoneBraceThrows(value: string)
    ensures FormattedBlocks(map["{" := value], ["{"]).Failure?
  {
    var line := KeyLine("{");
    assert line[12] == '{' && line[13] == '"';
    UnformatPrefix(line, 12);
  }

  /** A lone brace after brace-free text makes the format parser throw. */
  lemma {:induction false} UnformatPrefix(s: string, i: nat)
    requires i + 1 < |s| && NoBraces(s[..i]) && s[i] == '{' && s[i + 1] != '{'
    ensures Unformat(s).Failure?
  {
    if i > 0 {
      assert s[0] in s[..i];
      assert s[1..][..i - 1] == s[1..i];
      assert forall c :: c in s[1..i] ==> c in s[..i];
      UnformatPrefix(s[1..], i - 1);
    }
  }

  class CommonCache {
    var cache: map<string, string>

    constructor ()
      ensures cache == map[]
    {
      cache := map[];
    }

    /** GetCacheValue: the value under the key, if any. */
    method GetCacheValue(key: string) returns (found: bool, value: Option<string>)
      ensures found <==> key in cache
      ensures found ==> value == Some(cache[key])
      ensures !found ==> value.None?
    {
      if key in cache {
        return true, Some(cache[key]);
      }
      return false, None;
    }

    /** PutCacheValue: insert or overwrite. */
    method PutCacheValue(key: string, value: string)
      modifies this
      ensures cache == old(cache)[key := value]
    {
      cache := cache[key := value];
    }

    /** DeleteCacheValue: remove the key, reporting the value it held. */
    method DeleteCacheValue(key: string) returns (found: bool, value: Option<string>)
      modifies this
      ensures found <==> key in old(cache)
      ensures found ==> value == Some(old(cache)[key])
      ensures !found ==> value.None?
      ensures cache == old(cache) - {key}
    {
      if key in cache {
        found, value := true, Some(cache[key]);
        cache := cache - {key};
      } else {
        found, value := false, None;
      }
    }

    /**
     * GetAllCache: "[\n", then for each entry in enumeration order its block with
     * both lines passed through the format parser, then "]\n". A brace that is not
     * doubled throws FormatException.
     */
    method GetAllCache(order: seq<string>) returns (r: Result<string>)
      requires Enumerates(order, cache)
      ensures r == match FormattedBlocks(cache, order)
                   case Failure(e) => Failure(e)
                   case Success(blocks) => Success(Open + blocks + Close)
    {
      var result := Open;
      ghost var blocks: string := [];
      assert forall k :: k in order[..0] ==> k in cache;
      for i := 0 to |order|
        invariant result == Open + blocks
        invariant FormattedBlocks(cache, order[..i]) == Success(blocks)
      {
        assert order[..i + 1][..i] == order[..i];
        var key := order[i];
        var k := Unformat(KeyLine(key));
        if k.Failure? {
          assert FormattedBlocks(cache, order[..i + 1]) == Failure(k.error);
          FormattedFailureStays(cache, order, i + 1);
          return Failure(k.error);
        }
        var v := Unformat(ValueLine(cache[key]));
        if v.Failure? {
          assert FormattedBlocks(cache, order[..i + 1]) == Failure(v.error);
          FormattedFailureStays(cache, order, i + 1);
          return Failure(v.error);
        }
        result := result + Braced(k.value, v.value);
        blocks := blocks + Braced(k.value, v.value);
      }
      assert order[..|order|] == order;
      assert FormattedBlocks(cache, order) == Success(blocks);
      return Success(result + Close);
    }
  }

  /** Once a prefix of the entries throws, the whole dump throws the same. */
  lemma {:induction false} FormattedFailureStays(cache: map<string, string>, order: seq<string>, i: nat)
    requires forall k :: k in order ==> k in cache
    requires i <= |order| && FormattedBlocks(cache, order[..i]).Failure?
    ensures FormattedBlocks(cache, order) == FormattedBlocks(cache, order[..i])
    decreases |order| - i
  {
    if i < |order| {
      assert order[..i + 1][..i] == order[..i];
      FormattedFailureStays(cache, order, i + 1);
    } else {
      assert order[..i] == order;
    }
  }

  /**
   * The dump as it is evidently meant to be: every entry verbatim, so that each
   * entry's block occurs in it (EveryEntryListed).
   */
  method GetAllCacheVerbatim(c: CommonCache, order: seq<string>) returns (r: string)
    requires Enumerates(order, c.cache)
    ensures r == Open + Blocks(c.cache, order) + Close
  {
    var blocks := "";
    for i := 0 to |order|
      invariant blocks == Blocks(c.cache, order[..i])
    {
      assert order[..i + 1][..i] == order[..i];
      blocks := blocks + Block(order[i], c.cache[order[i]]);
    }
    assert order[..|order|] == order;
    r := Open + blocks + Close;
  }

  /** Put then get returns the value put; deleting it then makes it absent. */
  method PutGetDelete(key: string, value: string) returns (got: Option<string>, removed: Option<string>, after: bool)
    ensures got == Some(value) && removed == Some(value) && !after
  {
    var c := new CommonCache();
    c.PutCacheValue(key, value);
    var found;
    found, got := c.GetCacheValue(key);
    found, removed := c.DeleteCacheValue(key);
    var none;
    after, none := c.GetCacheValue(key);
  }

  /** GetInstance: the single cache, created on the first call. */
  class CacheHolder {
    var instance: Option<CommonCache>

    constructor ()
      ensures instance.None?
    {
      instance := None;
    }

    method GetInstance() returns (c: CommonCache)
      modifies this
      ensures old(instance).Some? ==> c == old(instance).value && instance == old(instance)
      ensures old(instance).None? ==> fresh(c) && c.cache == map[] && instance == Some(c)
    {
      if instance.None? {
        var created := new CommonCache();
        instance := Some(created);
      }
      c := instance.value;
    }
  }

  /** Two calls of GetInstance return the same cache, so a value put through one is seen through the other. */
  method SameInstance(key: string, value: string) returns (seen: Option<string>)
    ensures seen == Some(value)
  {
    var holder := new CacheHolder();
    var first := holder.GetInstance();
    first.PutCacheValue(key, value);
    var second := holder.GetInstance();
    var found;
    found, seen := second.GetCacheValue(key);
  }
}
