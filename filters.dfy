/**
 * The authorization predicates of `bot/utils/filters.py`. The config is the
 * parsed `config.toml`; the user and chat lists are whitespace-separated id
 * strings that are split eagerly and converted with `int` lazily, so a
 * malformed id only raises when the membership scan reaches it. Raised
 * exceptions are `Failure` values.
 */
module Filters {
  import opened Wrappers
  import opened Tools

  datatype FilterError = AttributeError | ValueError | TypeError

  /** A TOML value as `tomli` returns it, reduced to what `int()` and `.split()` distinguish. */
  datatype Value = Int(i: int) | Bool(b: bool) | Float(f: real) | Str(s: string) | Other

  /** The parts of a message the filters read; a missing `from_user` is `None`. */
  datatype Message = Message(senderChat: Option<int>, fromUser: Option<int>, chatId: int)

  /** `config["required"]["owner_id"]` and the optional `users` table. */
  datatype Config = Config(ownerId: Value, users: Option<map<string, Value>>)

  // ---------------------------------------------------------------------
  // str.split() and int(str)
  // ---------------------------------------------------------------------

  /** The characters Python's `str.isspace` accepts (used by `split()`). */
  predicate IsSpace(c: char) {
    || c == ' ' || '\t' <= c <= '\r' || '\U{1c}' <= c <= '\U{1f}'
    || c == '\U{85}' || c == '\U{a0}' || c == '\U{1680}' || '\U{2000}' <= c <= '\U{200a}'
    || c == '\U{2028}' || c == '\U{2029}' || c == '\U{202f}' || c == '\U{205f}' || c == '\U{3000}'
  }

  predicate IsWord(w: string) {
    w != [] && forall i :: 0 <= i < |w| ==> !IsSpace(w[i])
  }

  /** The length of the run of non-space characters that starts `s`. */
  function TokenLen(s: string): (n: nat)
    ensures n <= |s|
    ensures forall i :: 0 <= i < n ==> !IsSpace(s[i])
    ensures n == |s| || IsSpace(s[n])
  {
    if s == [] || IsSpace(s[0]) then 0 else 1 + TokenLen(s[1..])
  }

  /** `str.split()` with no separator: the maximal runs of non-space characters, in order. */
  function Words(s: string): (ws: seq<string>)
    ensures forall w :: w in ws ==> IsWord(w)
    decreases |s|
  {
    if s == [] then []
    else if IsSpace(s[0]) then Words(s[1..])
    else
      var n := TokenLen(s);
      [s[..n]] + Words(s[n..])
  }

  /** `" ".join(ws)`. */
  function JoinSpaced(ws: seq<string>): string {
    if ws == [] then ""
    else if |ws| == 1 then ws[0]
    else ws[0] + " " + JoinSpaced(ws[1..])
  }

  lemma WordThenRest(w: string, t: string)
    requires IsWord(w)
    requires t == [] || IsSpace(t[0])
    ensures Words(w + t) == [w] + Words(t)
  {
    var s := w + t;
    assert s[0] == w[0];
    assert TokenLen(s) == |w| by {
      TokenLenOfWord(w, t);
    }
    assert s[..|w|] == w && s[|w|..] == t;
  }

  lemma {:induction false} TokenLenOfWord(w: string, t: string)
    requires forall i :: 0 <= i < |w| ==> !IsSpace(w[i])
    requires t == [] || IsSpace(t[0])
    ensures TokenLen(w + t) == |w|
    decreases |w|
  {
    if w != [] {
      assert (w + t)[1..] == w[1..] + t;
      TokenLenOfWord(w[1..], t);
    } else {
      assert w + t == t;
    }
  }

  /** Splitting a single-space join of words gives the words back. */
  lemma {:induction false} WordsOfJoin(ws: seq<string>)
    requires forall w :: w in ws ==> IsWord(w)
    ensures Words(JoinSpaced(ws)) == ws
  {
    if |ws| == 1 {
      WordThenRest(ws[0], "");
      assert ws[0] + "" == ws[0];
    } else if |ws| > 1 {
      var rest := JoinSpaced(ws[1..]);
      WordsOfJoin(ws[1..]);
      assert (" " + rest)[1..] == rest;
      WordThenRest(ws[0], " " + rest);
      assert ws[0] + " " + rest == ws[0] + (" " + rest);
    }
  }

  /** A leading run that stops at a space inside `pre` is not affected by what follows `pre`. */
  lemma {:induction false} TokenLenStopsInside(pre: string, x: string, j: nat)
    requires j < |pre| && IsSpace(pre[j])
    ensures TokenLen(pre + x) == TokenLen(pre) < |pre|
    decreases j
  {
    if !IsSpace(pre[0]) {
      assert (pre + x)[1..] == pre[1..] + x;
      TokenLenStopsInside(pre[1..], x, j - 1);
    }
  }

  /** `split()` skips a leading space. */
  lemma WordsSkip(s: string)
    requires s != [] && IsSpace(s[0])
    ensures Words(s) == Words(s[1..])
  {
  }

  /** `split()` takes the leading run of non-space characters as its first token. */
  lemma WordsTake(s: string)
    requires s != [] && !IsSpace(s[0])
    ensures Words(s) == [s[..TokenLen(s)]] + Words(s[TokenLen(s)..])
  {
  }

  /** A leading space of `pre` is skipped whatever follows `pre`. */
  lemma SkipBeforeRest(pre: string, x: string)
    requires pre != [] && IsSpace(pre[0])
    ensures Words(pre + x) == Words(pre[1..] + x)
  {
    assert (pre + x)[1..] == pre[1..] + x;
    WordsSkip(pre + x);
  }

  /** Splitting past a leading space of `pre`: the split of the shorter prefix carries over. */
  lemma WordsAroundSkip(pre: string, w: string, post: string)
    requires pre != [] && IsSpace(pre[0])
    requires Words(pre[1..] + w + post) == Words(pre[1..]) + [w] + Words(post)
    ensures Words(pre + w + post) == Words(pre) + [w] + Words(post)
  {
    assert Words(pre + w + post) == Words(pre[1..] + w + post) by {
      SkipBeforeRest(pre, w + post);
      SplitConcat(pre, w, post);
      SplitConcat(pre[1..], w, post);
    }
    assert Words(pre) == Words(pre[1..]) by {
      WordsSkip(pre);
    }
  }

  /** A first token that ends inside `pre` is split off the same way whatever follows `pre`. */
  lemma FirstTokenInside(pre: string, x: string)
    requires pre != [] && !IsSpace(pre[0]) && IsSpace(pre[|pre| - 1])
    ensures var n := TokenLen(pre);
      Words(pre + x) == [pre[..n]] + Words(pre[n..] + x)
  {
    var s := pre + x;
    TokenLenStopsInside(pre, x, |pre| - 1);
    var n := TokenLen(pre);
    assert s[..n] == pre[..n];
    assert s[n..] == pre[n..] + x;
    WordsTake(s);
  }

  lemma SplitConcat(a: string, b: string, c: string)
    ensures a + b + c == a + (b + c)
  {
  }

  /** Splitting past a first token that ends inside `pre`: the split of the rest carries over. */
  lemma WordsAroundTake(pre: string, w: string, post: string)
    requires pre != [] && !IsSpace(pre[0]) && IsSpace(pre[|pre| - 1])
    requires var n := TokenLen(pre);
      Words(pre[n..] + w + post) == Words(pre[n..]) + [w] + Words(post)
    ensures Words(pre + w + post) == Words(pre) + [w] + Words(post)
  {
    var n := TokenLen(pre);
    var rest := pre[n..];
    var t := pre[..n];
    assert Words(pre + w + post) == [t] + Words(rest + w + post) by {
      FirstTokenInside(pre, w + post);
      SplitConcat(pre, w, post);
      SplitConcat(rest, w, post);
    }
    assert Words(pre) == [t] + Words(rest) by {
      WordsTake(pre);
    }
  }

  /**
   * A word set off by whitespace (or the ends of the string) is split out
   * as a token of its own, whatever whitespace surrounds it and whatever
   * comes before and after.
   */
  lemma {:induction false} WordsAround(pre: string, w: string, post: string)
    requires IsWord(w)
    requires pre == [] || IsSpace(pre[|pre| - 1])
    requires post == [] || IsSpace(post[0])
    ensures Words(pre + w + post) == Words(pre) + [w] + Words(post)
    decreases |pre|
  {
    if pre == [] {
      assert pre + w + post == w + post;
      WordThenRest(w, post);
    } else if IsSpace(pre[0]) {
      WordsAround(pre[1..], w, post);
      WordsAroundSkip(pre, w, post);
    } else {
      var n := TokenLen(pre);
      WordsAround(pre[n..], w, post);
      WordsAroundTake(pre, w, post);
    }
  }

  /**
   * The whitespace `int()` skips around a number: ASCII `\t`..`\r`, the space
   * and the non-ASCII whitespace. Unlike `str.isspace`, it leaves out the
   * ASCII separators U+001C..U+001F, which make `int()` raise.
   */
  predicate IntSpace(c: char) {
    IsSpace(c) && !('\U{1c}' <= c <= '\U{1f}')
  }

  /** The text between the whitespace `int()` skips at either end. */
  function IntStrip(s: string): (t: string)
    ensures |t| <= |s|
    decreases |s|
  {
    if s == [] then s
    else if IntSpace(s[0]) then IntStrip(s[1..])
    else if IntSpace(s[|s| - 1]) then IntStrip(s[..|s| - 1])
    else s
  }

  /** Stripping keeps a first character that is not skipped. */
  lemma {:induction false} IntStripKeepsFirst(s: string)
    requires s != [] && !IntSpace(s[0])
    ensures IntStrip(s) != [] && IntStrip(s)[0] == s[0]
    decreases |s|
  {
    if IntSpace(s[|s| - 1]) {
      IntStripKeepsFirst(s[..|s| - 1]);
    }
  }

  predicate IsAsciiDigit(c: char) { '0' <= c <= '9' }

  /**
   * A base-10 digit body as `int()` accepts it: ASCII digits, with single
   * underscores allowed between two digits.
   */
  predicate ValidDigits(s: string) {
    && s != [] && s[0] != '_' && s[|s| - 1] != '_'
    && (forall i :: 0 <= i < |s| ==> IsAsciiDigit(s[i]) || s[i] == '_')
    && (forall i :: 0 <= i < |s| - 1 ==> !(s[i] == '_' && s[i + 1] == '_'))
  }

  /** The value of a digit body, read left to right; underscores carry no value. */
  function DigitsValue(s: string): (v: nat)
  {
    if s == [] then 0
    else
      var c := s[|s| - 1];
      if IsAsciiDigit(c) then DigitsValue(s[..|s| - 1]) * 10 + (c as int - '0' as int)
      else DigitsValue(s[..|s| - 1])
  }

  /**
   * Python's `int(s)` on a string: the whitespace `int()` skips is ignored
   * at either end, an optional sign comes first, and the rest must be a
   * valid digit body; anything else is a ValueError (`None`).
   */
  function ParseInt(s: string): (r: Option<int>)
    ensures r.Some? ==> IntStrip(s) != []
  {
    var t := IntStrip(s);
    if t == [] then None
    else if t[0] == '-' || t[0] == '+' then
      var body := t[1..];
      var v: int := DigitsValue(body);
      if ValidDigits(body) then Some(if t[0] == '-' then -v else v)
      else None
    else if ValidDigits(t) then Some(DigitsValue(t))
    else None
  }

  /** The decimal rendering of an integer, as `str(n)` gives it. */
  function Decimal(n: int): (s: string)
    ensures s != [] && (n >= 0 ==> s[0] != '-')
    decreases if n < 0 then -n + 1 else n
  {
    if n < 0 then "-" + Decimal(-n)
    else if n < 10 then [('0' as int + n) as char]
    else Decimal(n / 10) + [('0' as int + n % 10) as char]
  }

  lemma {:induction false} DecimalDigits(n: nat)
    ensures var s := Decimal(n);
      && (forall i :: 0 <= i < |s| ==> IsAsciiDigit(s[i]))
      && DigitsValue(s) == n
  {
    if n >= 10 {
      DecimalDigits(n / 10);
      var s := Decimal(n);
      assert s[..|s| - 1] == Decimal(n / 10);
    }
  }

  /** The rendering of a natural number is a valid digit body with that value and no space at either end. */
  lemma DecimalBody(n: nat)
    ensures var s := Decimal(n);
      && ValidDigits(s) && DigitsValue(s) == n
      && !IsSpace(s[0]) && !IsSpace(s[|s| - 1]) && s[0] != '-' && s[0] != '+'
  {
    DecimalDigits(n);
  }

  lemma StripNoSpace(s: string)
    requires s != [] && !IsSpace(s[0]) && !IsSpace(s[|s| - 1])
    ensures IntStrip(s) == s
  {
  }

  /** `int(str(n)) == n` for every integer. */
  lemma ParseDecimal(n: int)
    ensures ParseInt(Decimal(n)) == Some(n)
  {
    var s := Decimal(n);
    if n >= 0 {
      DecimalBody(n);
      StripNoSpace(s);
    } else {
      DecimalBody(-n);
      var body := Decimal(-n);
      assert s == "-" + body && s[1..] == body;
      StripNoSpace(s);
    }
  }

  /**
   * A string whose first character is one of the separators U+001C..U+001F
   * does not convert, although `str.isspace` calls them whitespace.
   */
  lemma SeparatorRejected(s: string)
    requires s != [] && '\U{1c}' <= s[0] <= '\U{1f}'
    ensures ParseInt(s).None?
  {
    IntStripKeepsFirst(s);
    var t := IntStrip(s);
    assert !IsAsciiDigit(t[0]) && t[0] != '-' && t[0] != '+';
  }

  /** `int()` of a TOML value: integers as they are, booleans as 0 or 1, floats truncated. */
  function ToInt(v: Value): (r: Result<int, FilterError>)
    ensures v.Int? ==> r == Success(v.i)
    ensures v.Str? ==> (r.Success? <==> ParseInt(v.s).Some?)
    ensures r.Failure? ==> r.error == (if v.Str? then ValueError else TypeError)
  {
    match v
    case Int(i) => Success(i)
    case Bool(b) => Success(if b then 1 else 0)
    case Float(f) => Success(Trunc(f))
    case Str(s) => if ParseInt(s).Some? then Success(ParseInt(s).value) else Failure(ValueError)
    case Other => Failure(TypeError)
  }

  // ---------------------------------------------------------------------
  // The membership scan over map(int, tokens)
  // ---------------------------------------------------------------------

  /** The tokens before index i all convert and none of them is `id`. */
  predicate PassedOver(id: int, ts: seq<string>, i: nat)
    requires i <= |ts|
  {
    forall j :: 0 <= j < i ==> ParseInt(ts[j]).Some? && ParseInt(ts[j]).value != id
  }

  /**
   * `id in map(int, ts)`: convert the tokens one at a time and stop at the
   * first one equal to `id`; a token that does not convert raises there.
   */
  function ScanMember(id: int, ts: seq<string>): Result<bool, FilterError> {
    if ts == [] then Success(false)
    else
      match ParseInt(ts[0])
      case None => Failure(ValueError)
      case Some(v) => if v == id then Success(true) else ScanMember(id, ts[1..])
  }

  /** Passing over a well-formed first token that is not `id` shifts the count by one. */
  lemma PassedOverShift(id: int, ts: seq<string>, i: nat)
    requires 1 <= i <= |ts| && ParseInt(ts[0]).Some? && ParseInt(ts[0]).value != id
    ensures PassedOver(id, ts, i) <==> PassedOver(id, ts[1..], i - 1)
  {
    var tail := ts[1..];
    if PassedOver(id, tail, i - 1) {
      forall j | 0 <= j < i
        ensures ParseInt(ts[j]).Some? && ParseInt(ts[j]).value != id
      {
        if j > 0 {
          assert ts[j] == tail[j - 1];
        }
      }
    }
    if PassedOver(id, ts, i) {
      forall j | 0 <= j < i - 1
        ensures ParseInt(tail[j]).Some? && ParseInt(tail[j]).value != id
      {
        assert tail[j] == ts[j + 1];
      }
    }
  }

  /**
   * The scan finds `id` exactly when some token converts to it after only
   * well-formed, different tokens; it raises exactly when it reaches a
   * malformed token first; otherwise it answers false.
   */
  lemma {:induction false} ScanMemberSpec(id: int, ts: seq<string>)
    ensures ScanMember(id, ts) == Success(true) <==>
      exists i :: 0 <= i < |ts| && ParseInt(ts[i]) == Some(id) && PassedOver(id, ts, i)
    ensures ScanMember(id, ts).Failure? <==>
      exists i :: 0 <= i < |ts| && ParseInt(ts[i]).None? && PassedOver(id, ts, i)
    ensures ScanMember(id, ts) == Success(false) <==> PassedOver(id, ts, |ts|)
    ensures ScanMember(id, ts).Failure? ==> ScanMember(id, ts).error == ValueError
  {
    if ts != [] && ParseInt(ts[0]).Some? && ParseInt(ts[0]).value != id {
      var tail := ts[1..];
      ScanMemberSpec(id, tail);
      forall i | 1 <= i <= |ts|
        ensures PassedOver(id, ts, i) <==> PassedOver(id, tail, i - 1)
      {
        PassedOverShift(id, ts, i);
      }
      if ScanMember(id, tail) == Success(true) {
        var i :| 0 <= i < |tail| && ParseInt(tail[i]) == Some(id) && PassedOver(id, tail, i);
        assert ts[i + 1] == tail[i];
      }
      if ScanMember(id, tail).Failure? {
        var i :| 0 <= i < |tail| && ParseInt(tail[i]).None? && PassedOver(id, tail, i);
        assert ts[i + 1] == tail[i];
      }
      if exists i :: 0 <= i < |ts| && ParseInt(ts[i]) == Some(id) && PassedOver(id, ts, i) {
        var i :| 0 <= i < |ts| && ParseInt(ts[i]) == Some(id) && PassedOver(id, ts, i);
        assert i > 0;
        assert tail[i - 1] == ts[i];
      }
      if exists i :: 0 <= i < |ts| && ParseInt(ts[i]).None? && PassedOver(id, ts, i) {
        var i :| 0 <= i < |ts| && ParseInt(ts[i]).None? && PassedOver(id, ts, i);
        assert i > 0;
        assert tail[i - 1] == ts[i];
      }
    } else if ts != [] {
      assert PassedOver(id, ts, 0);
    }
  }

  /** Over well-formed tokens the scan never raises. */
  lemma {:induction false} ScanWellFormed(id: int, ts: seq<string>)
    requires forall j :: 0 <= j < |ts| ==> ParseInt(ts[j]).Some?
    ensures ScanMember(id, ts).Success?
  {
    if ts != [] {
      ScanWellFormed(id, ts[1..]);
    }
  }

  // ---------------------------------------------------------------------
  // The filters
  // ---------------------------------------------------------------------

  /**
   * `users_config.get(key, "").split()`: a missing table or key is the empty
   * string; a present value that is not a string has no `split` method.
   */
  function ListTokens(users: Option<map<string, Value>>, key: string): (r: Result<seq<string>, FilterError>)
    ensures r.Failure? <==> users.Some? && key in users.value && !users.value[key].Str?
    ensures users.None? || key !in users.value ==> r == Success([])
    ensures r.Success? && users.Some? && key in users.value ==> r.value == Words(users.value[key].s)
  {
    if users.None? || key !in users.value then Success([])
    else if users.value[key].Str? then Success(Words(users.value[key].s))
    else Failure(AttributeError)
  }

  const UsersKey: string := "authorized_users"
  const ChatsKey: string := "authorized_chats"

  /**
   * `owner_filter`: a message sent on behalf of a chat never passes;
   * otherwise the sender must be the configured owner.
   */
  function OwnerFilter(cfg: Config, msg: Message): (r: Result<bool, FilterError>)
    ensures r == Success(true) <==>
      msg.senderChat.None? && msg.fromUser.Some? && ToInt(cfg.ownerId) == Success(msg.fromUser.value)
    ensures msg.senderChat.Some? ==> r == Success(false)
    ensures r.Failure? <==> msg.senderChat.None? && (msg.fromUser.None? || ToInt(cfg.ownerId).Failure?)
  {
    if msg.senderChat.Some? then Success(false)
    else if msg.fromUser.None? then Failure(AttributeError)
    else
      match ToInt(cfg.ownerId)
      case Failure(e) => Failure(e)
      case Success(owner) => Success(msg.fromUser.value == owner)
  }

  /** An owner id string that starts with a separator U+001C..U+001F makes the owner filter raise ValueError. */
  lemma SeparatorOwnerIdRaises(s: string, msg: Message)
    requires s != [] && '\U{1c}' <= s[0] <= '\U{1f}'
    requires msg.senderChat.None? && msg.fromUser.Some?
    ensures OwnerFilter(Config(Str(s), None), msg) == Failure(ValueError)
  {
    SeparatorRejected(s);
  }

  /**
   * `authorized_only_filter`: both lists are split first; then the sender is
   * compared with the owner, then looked up among the users, then the chat
   * among the chats, each step only if the previous one answered false.
   */
  function AuthorizedOnly(cfg: Config, msg: Message): (r: Result<bool, FilterError>) {
    match ListTokens(cfg.users, UsersKey)
    case Failure(e) => Failure(e)
    case Success(users) =>
      match ListTokens(cfg.users, ChatsKey)
      case Failure(e) => Failure(e)
      case Success(chats) =>
        if msg.fromUser.None? then Failure(AttributeError)
        else
          match ToInt(cfg.ownerId)
          case Failure(e) => Failure(e)
          case Success(owner) =>
            if msg.fromUser.value == owner then Success(true)
            else
              match ScanMember(msg.fromUser.value, users)
              case Failure(e) => Failure(e)
              case Success(found) => if found then Success(true) else ScanMember(msg.chatId, chats)
  }

  /** Both lists are strings or absent, so splitting them cannot raise. */
  predicate ListsSplit(cfg: Config) {
    ListTokens(cfg.users, UsersKey).Success? && ListTokens(cfg.users, ChatsKey).Success?
  }

  /** The owner is authorized whatever the lists hold, malformed ids included. */
  lemma OwnerAlwaysAuthorized(cfg: Config, msg: Message)
    requires ListsSplit(cfg)
    requires msg.fromUser.Some? && ToInt(cfg.ownerId) == Success(msg.fromUser.value)
    ensures AuthorizedOnly(cfg, msg) == Success(true)
  {
  }

  /** Whoever passes the owner filter passes the authorization filter. */
  lemma OwnerFilterImpliesAuthorized(cfg: Config, msg: Message)
    requires ListsSplit(cfg)
    requires OwnerFilter(cfg, msg) == Success(true)
    ensures AuthorizedOnly(cfg, msg) == Success(true)
  {
    OwnerAlwaysAuthorized(cfg, msg);
  }

  /** Without a `users` table only the owner is authorized. */
  lemma NoUsersTableOnlyOwner(cfg: Config, msg: Message)
    requires cfg.users.None? && msg.fromUser.Some?
    ensures AuthorizedOnly(cfg, msg) == (match ToInt(cfg.ownerId)
      case Failure(e) => Failure(e)
      case Success(owner) => Success(msg.fromUser.value == owner))
  {
    assert ScanMember(msg.fromUser.value, []) == Success(false);
  }

  /**
   * With an owner id that converts, split lists and a present sender: the
   * filter allows the sender when they are the owner, when the user scan
   * finds them, or when the user scan passes over every token and the chat
   * scan finds the chat; it raises only from a scan.
   */
  lemma AuthorizedOnlySpec(cfg: Config, msg: Message, owner: int)
    requires ListsSplit(cfg) && msg.fromUser.Some? && ToInt(cfg.ownerId) == Success(owner)
    ensures var u := msg.fromUser.value;
      var users := ListTokens(cfg.users, UsersKey).value;
      var chats := ListTokens(cfg.users, ChatsKey).value;
      && (AuthorizedOnly(cfg, msg) == Success(true) <==>
            || u == owner
            || ScanMember(u, users) == Success(true)
            || (PassedOver(u, users, |users|) && ScanMember(msg.chatId, chats) == Success(true)))
      && (AuthorizedOnly(cfg, msg).Failure? <==>
            u != owner && (ScanMember(u, users).Failure?
              || (PassedOver(u, users, |users|) && ScanMember(msg.chatId, chats).Failure?)))
  {
    var u := msg.fromUser.value;
    var users := ListTokens(cfg.users, UsersKey).value;
    ScanMemberSpec(u, users);
  }

  /** A sender listed among the users, behind only well-formed other ids, is authorized. */
  lemma ListedUserAuthorized(cfg: Config, msg: Message, i: nat)
    requires ListsSplit(cfg) && msg.fromUser.Some? && ToInt(cfg.ownerId).Success?
    requires var users := ListTokens(cfg.users, UsersKey).value;
      i < |users| && ParseInt(users[i]) == Some(msg.fromUser.value) && PassedOver(msg.fromUser.value, users, i)
    ensures AuthorizedOnly(cfg, msg) == Success(true)
  {
    ScanMemberSpec(msg.fromUser.value, ListTokens(cfg.users, UsersKey).value);
  }

  /** The decimal rendering of any integer is a word: it holds no whitespace. */
  lemma DecimalIsWord(n: int)
    ensures IsWord(Decimal(n))
  {
    if n >= 0 {
      DecimalDigits(n);
    } else {
      DecimalDigits(-n);
      var body := Decimal(-n);
      assert Decimal(n) == "-" + body;
      forall i | 0 <= i < |Decimal(n)|
        ensures !IsSpace(Decimal(n)[i])
      {
        if i > 0 {
          assert Decimal(n)[i] == body[i - 1];
        }
      }
    }
  }

  /**
   * A sender whose id is written in `authorized_users`, set off by any
   * whitespace, is authorized, provided every id written before it
   * converts and is a different id.
   */
  lemma WrittenUserAuthorized(cfg: Config, msg: Message, pre: string, post: string)
    requires msg.fromUser.Some? && ToInt(cfg.ownerId).Success?
    requires cfg.users.Some? && ListTokens(cfg.users, ChatsKey).Success?
    requires UsersKey in cfg.users.value
    requires cfg.users.value[UsersKey] == Str(pre + Decimal(msg.fromUser.value) + post)
    requires pre == [] || IsSpace(pre[|pre| - 1])
    requires post == [] || IsSpace(post[0])
    requires forall t :: t in Words(pre) ==> ParseInt(t).Some? && ParseInt(t).value != msg.fromUser.value
    ensures AuthorizedOnly(cfg, msg) == Success(true)
  {
    var u := msg.fromUser.value;
    DecimalIsWord(u);
    WordsAround(pre, Decimal(u), post);
    ParseDecimal(u);
    var users := ListTokens(cfg.users, UsersKey).value;
    var i := |Words(pre)|;
    assert users == Words(pre) + [Decimal(u)] + Words(post);
    assert users[i] == Decimal(u);
    forall j | 0 <= j < i
      ensures ParseInt(users[j]).Some? && ParseInt(users[j]).value != u
    {
      assert users[j] == Words(pre)[j];
    }
    ListedUserAuthorized(cfg, msg, i);
  }

  /**
   * A message from a listed chat is authorized whoever sent it, provided the
   * user list is well-formed and the chat sits behind well-formed ids.
   */
  lemma ListedChatAuthorized(cfg: Config, msg: Message, i: nat)
    requires ListsSplit(cfg) && msg.fromUser.Some? && ToInt(cfg.ownerId).Success?
    requires var users := ListTokens(cfg.users, UsersKey).value;
      forall j :: 0 <= j < |users| ==> ParseInt(users[j]).Some?
    requires var chats := ListTokens(cfg.users, ChatsKey).value;
      i < |chats| && ParseInt(chats[i]) == Some(msg.chatId) && PassedOver(msg.chatId, chats, i)
    ensures AuthorizedOnly(cfg, msg) == Success(true)
  {
    var u := msg.fromUser.value;
    var users := ListTokens(cfg.users, UsersKey).value;
    var chats := ListTokens(cfg.users, ChatsKey).value;
    ScanMemberSpec(msg.chatId, chats);
    assert ScanMember(msg.chatId, chats) == Success(true);
    ScanWellFormed(u, users);
  }
}
