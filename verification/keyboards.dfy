/** The inline keyboards that carry state between the bot's screens: the
    paginated client list, the confirmation pair, and the per-client edit
    keyboards whose callback data the handlers split apart again. The
    layout calls (`adjust`) put every list button on a row of its own, so a
    keyboard is modelled as its sequence of buttons. */
module Keyboards {
  import opened Wrappers
  import opened PyText
  import opened Store
  import AdminHandlers

  datatype Button = Button(text: string, callback: string)

  /** `str(client.id)`: the number, or `None` for a client never stored. */
  function IdText(id: Option<int>): string {
    match id
    case Some(n) => IntToString(n)
    case None => "None"
  }

  /** One client's button: a green mark for an active, unblocked client and a
      red one otherwise, then the name; the callback opens the client card. */
  function ClientButton(c: Client): (b: Button)
    ensures |b.text| == |c.name| + 2
    ensures b.text[0] == '🟢' <==> c.isActive && !c.isBlocked
    ensures b.text[0] == '🔴' <==> !(c.isActive && !c.isBlocked)
    ensures b.text[1..] == " " + c.name
    ensures b.callback == "client_details:" + IdText(c.id)
  {
    Button((if c.isActive && !c.isBlocked then "🟢" else "🔴") + " " + c.name, "client_details:" + IdText(c.id))
  }

  function ClientButtons(cs: seq<Client>): (r: seq<Button>)
    ensures |r| == |cs| && forall i :: 0 <= i < |cs| ==> r[i] == ClientButton(cs[i])
  {
    seq(|cs|, i requires 0 <= i < |cs| => ClientButton(cs[i]))
  }

  // ------------------------------------------------------------- pagination

  /** Where a Python slice bound lands in a sequence of length `n`: a
      negative bound counts from the end, and both ends are clamped. */
  function SliceIndex(i: int, n: nat): (r: nat)
    ensures r <= n
    ensures 0 <= i <= n ==> r == i
    ensures i > n ==> r == n
    ensures i < 0 ==> r == if n + i < 0 then 0 else n + i
  {
    if i < 0 then (if n + i < 0 then 0 else n + i) else if i > n then n else i
  }

  /** `clients[page * per_page : page * per_page + per_page]`. */
  function PageClients(clients: seq<Client>, page: int, perPage: int): seq<Client>
  {
    var lo := SliceIndex(page * perPage, |clients|);
    var hi := SliceIndex(page * perPage + perPage, |clients|);
    if lo < hi then clients[lo..hi] else []
  }

  /** A page at or after the first is the run of at most `per_page` clients
      that starts at `page * per_page`, and it is empty only past the end. */
  lemma PageClientsWindow(clients: seq<Client>, page: int, perPage: int)
    requires page >= 0 && perPage > 0
    ensures var start := page * perPage;
      var page := PageClients(clients, page, perPage);
      |page| <= perPage
      && (start < |clients| ==> page != [] && page == clients[start..if start + perPage <= |clients| then start + perPage else |clients|])
      && (start >= |clients| ==> page == [])
  {
    assert page * perPage >= 0;
  }

  /** `(len(clients) - 1) // per_page + 1`: no page for an empty list. */
  function PageCount(n: nat, perPage: int): (r: int)
    requires perPage > 0
    ensures n == 0 ==> r == 0
    ensures n >= 1 ==> r >= 1 && (r - 1) * perPage < n <= r * perPage
  {
    (n - 1) / perPage + 1
  }

  function PageCallback(p: int): string {
    "clients_page:" + IntToString(p)
  }

  const FirstLabel := "⏪ Первая"
  const BackLabel := "◀️ Назад"
  const NextLabel := "Вперед ▶️"
  const LastLabel := "Последняя ⏩"

  /** The navigation row(s): "first" and "back" from the second page on,
      "next" and "last" before the last page. */
  function NavButtons(page: int, total: int): (r: seq<Button>)
    ensures |r| == (if page > 0 then 2 else 0) + (if page < total - 1 then 2 else 0)
    ensures page > 0 ==> r[0] == Button(FirstLabel, PageCallback(0)) && r[1] == Button(BackLabel, PageCallback(page - 1))
    ensures page < total - 1 ==>
      r[|r| - 2] == Button(NextLabel, PageCallback(page + 1)) && r[|r| - 1] == Button(LastLabel, PageCallback(total - 1))
  {
    (if page > 0 then [Button(FirstLabel, PageCallback(0)), Button(BackLabel, PageCallback(page - 1))] else [])
    + (if page < total - 1 then [Button(NextLabel, PageCallback(page + 1)), Button(LastLabel, PageCallback(total - 1))] else [])
  }

  /** The "first" button is there exactly when the page is not the first,
      and the "last" button exactly when it is not the last. */
  lemma NavButtonsPresence(page: int, total: int)
    ensures var nav := NavButtons(page, total);
      (exists i :: 0 <= i < |nav| && nav[i].text == FirstLabel) <==> page > 0
    ensures var nav := NavButtons(page, total);
      (exists i :: 0 <= i < |nav| && nav[i].text == LastLabel) <==> page < total - 1
  {
    var nav := NavButtons(page, total);
    assert FirstLabel[0] != NextLabel[0] && FirstLabel[0] != LastLabel[0] && FirstLabel[0] != BackLabel[0];
    assert LastLabel[0] != FirstLabel[0] && LastLabel[0] != BackLabel[0] && LastLabel[0] != NextLabel[0];
    if page > 0 {
      assert nav[0].text == FirstLabel;
    }
    if page < total - 1 {
      assert nav[|nav| - 1].text == LastLabel;
    }
  }

  const BackToMenu := Button("🔙 Меню клиентов", "clients_menu")

  /** The buttons of `get_client_list_keyboard(clients, page, per_page)`, in
      order. */
  function ListKeyboard(clients: seq<Client>, page: int, perPage: int): seq<Button>
    requires perPage > 0
  {
    ClientButtons(PageClients(clients, page, perPage))
    + NavButtons(page, PageCount(|clients|, perPage))
    + [BackToMenu]
  }

  /** The list keyboard is the page's client buttons, then 0, 2 or 4
      navigation buttons, then the back-to-menu button, which is last and
      appears nowhere else. */
  lemma ListKeyboardShape(clients: seq<Client>, page: int, perPage: int)
    requires perPage > 0
    ensures var kb := ListKeyboard(clients, page, perPage);
      var shown := PageClients(clients, page, perPage);
      var nav := |kb| - |shown| - 1;
      (nav == 0 || nav == 2 || nav == 4)
      && (forall i :: 0 <= i < |shown| ==> kb[i] == ClientButton(shown[i]))
      && kb[|kb| - 1] == BackToMenu
      && (forall i :: 0 <= i < |kb| - 1 ==> kb[i].callback != "clients_menu")
  {
    var shown := PageClients(clients, page, perPage);
    var total := PageCount(|clients|, perPage);
    var nav := NavButtons(page, total);
    var buttons := ClientButtons(shown);
    var kb := ListKeyboard(clients, page, perPage);
    assert kb == buttons + nav + [BackToMenu];
    forall i | 0 <= i < |kb| - 1 ensures kb[i].callback != "clients_menu" {
      if i < |shown| {
        assert kb[i] == buttons[i];
        ClientCallbackNotMenu(shown[i]);
      } else {
        var j := i - |shown|;
        assert kb[i] == nav[j];
        if page > 0 && j == 0 {
          PageCallbackNotMenu(0);
        } else if page > 0 && j == 1 {
          PageCallbackNotMenu(page - 1);
        } else if j == |nav| - 2 {
          PageCallbackNotMenu(page + 1);
        } else {
          PageCallbackNotMenu(total - 1);
        }
      }
    }
  }

  lemma ClientCallbackNotMenu(c: Client)
    ensures ClientButton(c).callback != "clients_menu"
  {
    assert ClientButton(c).callback[6] == '_';
  }

  lemma PageCallbackNotMenu(p: int)
    ensures PageCallback(p) != "clients_menu"
  {
    assert PageCallback(p)[8] == 'p';
  }

  /** `get_client_list_keyboard`: the client buttons are added one by one,
      the navigation buttons gathered in their own list, then the back
      button. */
  method ClientListKeyboard(clients: seq<Client>, page: int, perPage: int) returns (buttons: seq<Button>)
    requires perPage > 0
    ensures buttons == ListKeyboard(clients, page, perPage)
  {
    var pageClients := PageClients(clients, page, perPage);
    buttons := AddClientButtons(pageClients);
    var totalPages := (|clients| - 1) / perPage + 1;
    var nav := Navigation(page, totalPages);
    buttons := buttons + nav + [BackToMenu];
  }

  /** The loop that adds one button per client of the page. */
  method AddClientButtons(pageClients: seq<Client>) returns (buttons: seq<Button>)
    ensures buttons == ClientButtons(pageClients)
  {
    buttons := [];
    for k := 0 to |pageClients|
      invariant buttons == ClientButtons(pageClients[..k])
    {
      buttons := buttons + [ClientButton(pageClients[k])];
    }
    assert pageClients[..|pageClients|] == pageClients;
  }

  /** The navigation row, gathered button by button. */
  method Navigation(page: int, totalPages: int) returns (nav: seq<Button>)
    ensures nav == NavButtons(page, totalPages)
  {
    nav := [];
    if page > 0 {
      nav := nav + [Button(FirstLabel, PageCallback(0))];
      nav := nav + [Button(BackLabel, PageCallback(page - 1))];
    }
    if page < totalPages - 1 {
      nav := nav + [Button(NextLabel, PageCallback(page + 1))];
      nav := nav + [Button(LastLabel, PageCallback(totalPages - 1))];
    }
  }

  /** `int(callback.data.split(":", 1)[1])` in `show_clients_list`; None when
      the index or the conversion raises. */
  function PageOfCallback(data: string): (r: Option<int>)
  {
    var parts := SplitN(data, ":", 1);
    if |parts| < 2 then None else ParseInt(parts[1])
  }

  lemma PageCallbackParses(p: int)
    ensures PageOfCallback(PageCallback(p)) == Some(p)
  {
    SplitNCons("clients_page", ':', IntToString(p), 1);
    assert PageCallback(p) == "clients_page" + [':'] + IntToString(p);
    ParseIntOfIntToString(p);
  }

  /** From a page in range, every navigation button leads to a page in
      range. */
  lemma NavTargetsInRange(page: int, total: int)
    requires 0 <= page < total
    ensures var nav := NavButtons(page, total);
      forall i :: 0 <= i < |nav| ==>
        PageOfCallback(nav[i].callback).Some? && 0 <= PageOfCallback(nav[i].callback).value < total
  {
    var nav := NavButtons(page, total);
    forall i | 0 <= i < |nav|
      ensures PageOfCallback(nav[i].callback).Some? && 0 <= PageOfCallback(nav[i].callback).value < total
    {
      var t := if page > 0 && i == 0 then 0
        else if page > 0 && i == 1 then page - 1
        else if i == |nav| - 2 then page + 1
        else total - 1;
      assert nav[i].callback == PageCallback(t);
      PageCallbackParses(t);
    }
  }

  /** The list screen clamps the requested page before building the
      keyboard; the page it shows then has at least one client, the page
      count agrees with the screen's own, and "first" shows exactly off the
      first page, "last" exactly off the last. */
  lemma ShownPageHasClients(clients: seq<Client>, page: int)
    requires |clients| >= 1
    ensures var p := AdminHandlers.ClampPage(page, |clients|);
      PageClients(clients, p, AdminHandlers.PerPage) != []
      && |PageClients(clients, p, AdminHandlers.PerPage)| <= AdminHandlers.PerPage
      && PageCount(|clients|, AdminHandlers.PerPage) == AdminHandlers.TotalPages(|clients|)
      && p < PageCount(|clients|, AdminHandlers.PerPage)
  {
    var p := AdminHandlers.ClampPage(page, |clients|);
    PageClientsWindow(clients, p, AdminHandlers.PerPage);
  }

  // ---------------------------------------------------------- confirmation

  /** `get_confirmation_keyboard(action, item_id)`: yes, then no. */
  function ConfirmationKeyboard(action: string, itemId: string): (r: seq<Button>)
    ensures |r| == 2
    ensures r[0].callback == "confirm:" + action + ":" + itemId
    ensures r[1].callback == "cancel:" + action
  {
    [Button("✅ Да", "confirm:" + action + ":" + itemId), Button("❌ Нет", "cancel:" + action)]
  }

  /** For an action without a colon, `split(":", 2)` of the "yes" callback
      gives back the prefix, the action and the whole item id, colons in the
      id included. */
  lemma ConfirmSplits(action: string, itemId: string)
    requires ':' !in action
    ensures SplitN(ConfirmationKeyboard(action, itemId)[0].callback, ":", 2) == ["confirm", action, itemId]
  {
    assert "confirm:" + action + ":" + itemId == "confirm" + [':'] + (action + [':'] + itemId);
    SplitNCons("confirm", ':', action + [':'] + itemId, 2);
    SplitNCons(action, ':', itemId, 1);
  }

  /** `int(callback.data.split(":", 2)[2])` as `delete_client_confirmed`
      reads it. */
  function ConfirmedId(data: string): Option<int> {
    var parts := SplitN(data, ":", 2);
    if |parts| < 3 then None else ParseInt(parts[2])
  }

  /** The delete confirmation for client `id` hands `id` back to the
      handler. */
  lemma DeleteConfirmationId(id: int)
    ensures ConfirmedId(ConfirmationKeyboard("delete_client", IntToString(id))[0].callback) == Some(id)
  {
    var digits := IntToString(id);
    var parts := SplitN(ConfirmationKeyboard("delete_client", digits)[0].callback, ":", 2);
    ConfirmSplits("delete_client", digits);
    assert parts[2] == digits;
    ParseIntOfIntToString(id);
  }

  // ------------------------------------------------------- edit keyboards

  /** `f"{prefix}:{client_id}:{token}"`. */
  function EditCallback(prefix: string, clientId: int, token: string): string {
    prefix + ":" + IntToString(clientId) + ":" + token
  }

  /** What `parts = data.split(":", 2); int(parts[1]); parts[2]` gives the
      edit handlers: the client id and the token, or None when it raises. */
  function EditTarget(data: string): Option<(int, string)> {
    var parts := SplitN(data, ":", 2);
    if |parts| < 3 then None
    else match ParseInt(parts[1])
      case None => None
      case Some(id) => Some((id, parts[2]))
  }

  /** An edit callback is split back into its prefix, the client id and the
      token, whatever the token holds. */
  lemma EditCallbackRoundTrip(prefix: string, clientId: int, token: string)
    requires ':' !in prefix
    ensures SplitN(EditCallback(prefix, clientId, token), ":", 2) == [prefix, IntToString(clientId), token]
    ensures EditTarget(EditCallback(prefix, clientId, token)) == Some((clientId, token))
  {
    var id := IntToString(clientId);
    assert EditCallback(prefix, clientId, token) == prefix + [':'] + (id + [':'] + token);
    SplitNCons(prefix, ':', id + [':'] + token, 2);
    IntToStringChars(clientId, ':');
    SplitNCons(id, ':', token, 1);
    ParseIntOfIntToString(clientId);
  }

  const TimeTokens: seq<string> := ["1h", "6h", "12h", "1d", "3d", "7d", "2w", "1m", "3m", "6m", "1y", "custom", "unlimited"]
  const UnitTokens: seq<string> := ["hours", "days", "weeks", "months", "years"]
  const TrafficTokens: seq<string> := ["5", "10", "30", "100", "unlimited"]

  /** The choice buttons of an edit keyboard: one callback per token, in the
      keyboard's order. */
  function EditChoices(prefix: string, clientId: int, tokens: seq<string>): (r: seq<string>)
    ensures |r| == |tokens|
  {
    seq(|tokens|, i requires 0 <= i < |tokens| => EditCallback(prefix, clientId, tokens[i]))
  }

  /** Every choice button of an edit keyboard carries its client id and its
      token back to the handler that splits it. */
  lemma EditChoicesRoundTrip(prefix: string, clientId: int, tokens: seq<string>, i: int)
    requires ':' !in prefix && 0 <= i < |tokens|
    ensures EditTarget(EditChoices(prefix, clientId, tokens)[i]) == Some((clientId, tokens[i]))
  {
    EditCallbackRoundTrip(prefix, clientId, tokens[i]);
  }

  /** Each traffic token of the edit keyboard is a limit the handler can
      convert: `unlimited`, or a whole number of GiB. */
  lemma TrafficTokensConvert(i: int)
    requires 0 <= i < |TrafficTokens|
    ensures AdminHandlers.CreationLimit(TrafficTokens[i]).Some?
  {
    var t := TrafficTokens[i];
    if i == 0 { assert t == IntToString(5); ParseIntOfIntToString(5); }
    else if i == 1 { assert t == IntToString(10); ParseIntOfIntToString(10); }
    else if i == 2 { assert t == IntToString(30); ParseIntOfIntToString(30); }
    else if i == 3 { assert t == IntToString(100); ParseIntOfIntToString(100); }
  }
}
