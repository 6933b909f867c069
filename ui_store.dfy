// The UI store of the React front end (frontend/src/stores/ui.ts): sidebar,
// theme, editor settings, the one open dialog, the toast list and the
// loading flag. Notification ids come from the clock and a random number
// generator in the source; here they are parameters.

module UiStore {
  import opened Common

  datatype Theme = System | Light | Dark

  datatype ResolvedTheme = ResolvedLight | ResolvedDark

  datatype IndentType = Tabs | Spaces

  datatype AppSettings = AppSettings(indentType: IndentType, indentSize: nat, theme: Theme)

  /** `Partial<AppSettings>`: the keys present in an update. */
  datatype SettingsUpdate = SettingsUpdate(indentType: Option<IndentType>, indentSize: Option<nat>, theme: Option<Theme>)

  datatype DialogType = AddLanguageDialog | AddUnitDialog | ConversionDialog | SettingsDialog | ConfirmDialog | ConflictDialog

  /** The open dialog and its string-valued props (callbacks are not modelled). */
  datatype DialogState = DialogState(dialogType: Option<DialogType>, props: Option<seq<(string, string)>>)

  datatype NotificationKind = Info | Success | Warning | Error

  /** `Omit<Notification, 'id'>` */
  datatype NotificationContent = NotificationContent(kind: NotificationKind, title: string, message: Option<string>, duration: Option<int>)

  datatype Notification = Notification(id: string, content: NotificationContent)

  const MinSidebarWidth := 200
  const MaxSidebarWidth := 500
  const InitialSidebarWidth := 280

  const DefaultSettings := AppSettings(Tabs, 4, System)

  /** `Math.max(200, Math.min(500, width))` */
  function ClampSidebarWidth(width: int): (r: int)
    ensures MinSidebarWidth <= r <= MaxSidebarWidth
    ensures MinSidebarWidth <= width <= MaxSidebarWidth ==> r == width
    ensures width < MinSidebarWidth ==> r == MinSidebarWidth
    ensures width > MaxSidebarWidth ==> r == MaxSidebarWidth
  {
    if width < MinSidebarWidth then MinSidebarWidth
    else if width > MaxSidebarWidth then MaxSidebarWidth
    else width
  }

  /** `' '.repeat(n)` */
  function SpaceRun(n: nat): (r: string)
    ensures |r| == n
    ensures forall i :: 0 <= i < n ==> r[i] == ' '
  {
    if n == 0 then "" else SpaceRun(n - 1) + " "
  }

  /** getIndentString: one tab, or indentSize spaces. */
  function IndentString(settings: AppSettings): (r: string)
    ensures settings.indentType == Tabs ==> r == "\t"
    ensures settings.indentType == Spaces ==> |r| == settings.indentSize && forall i :: 0 <= i < |r| ==> r[i] == ' '
  {
    if settings.indentType == Tabs then "\t" else SpaceRun(settings.indentSize)
  }

  /** `Object.assign(settings, updates)`: the given keys replace, the others stay. */
  function MergeSettings(settings: AppSettings, updates: SettingsUpdate): AppSettings {
    AppSettings(
      if updates.indentType.Some? then updates.indentType.value else settings.indentType,
      if updates.indentSize.Some? then updates.indentSize.value else settings.indentSize,
      if updates.theme.Some? then updates.theme.value else settings.theme)
  }

  function NotificationIds(ns: seq<Notification>): (r: seq<string>)
    ensures |r| == |ns|
    ensures forall i :: 0 <= i < |ns| ==> r[i] == ns[i].id
  {
    if ns == [] then [] else [ns[0].id] + NotificationIds(ns[1..])
  }

  /** removeNotification: the first entry with the id is spliced out. */
  function WithoutNotification(ns: seq<Notification>, id: string): seq<Notification> {
    var i := IndexOf(NotificationIds(ns), id);
    if i == -1 then ns else ns[..i] + ns[i + 1..]
  }

  /** `notifications.findIndex(n => n.id === id)` */
  method FindNotification(ns: seq<Notification>, id: string) returns (idx: int)
    ensures idx == IndexOf(NotificationIds(ns), id)
  {
    idx := 0;
    while idx < |ns| && ns[idx].id != id
      invariant 0 <= idx <= |ns|
      invariant forall k :: 0 <= k < idx ==> ns[k].id != id
    {
      idx := idx + 1;
    }
    var ids := NotificationIds(ns);
    assert id !in ids[..idx] by {
      forall k | 0 <= k < idx ensures ids[..idx][k] != id {
        assert ids[k] == ns[k].id;
      }
    }
    if idx < |ns| {
      IndexOfFirst(ids, id, idx);
    } else {
      assert ids[..idx] == ids;
      idx := -1;
    }
  }

  /** Merging updates changes exactly the given keys. */
  lemma MergeSettingsKeys(settings: AppSettings, updates: SettingsUpdate)
    ensures var r := MergeSettings(settings, updates);
      && (updates.indentType.Some? ==> r.indentType == updates.indentType.value)
      && (updates.indentType.None? ==> r.indentType == settings.indentType)
      && (updates.indentSize.Some? ==> r.indentSize == updates.indentSize.value)
      && (updates.indentSize.None? ==> r.indentSize == settings.indentSize)
      && (updates.theme.Some? ==> r.theme == updates.theme.value)
      && (updates.theme.None? ==> r.theme == settings.theme)
    ensures MergeSettings(settings, SettingsUpdate(None, None, None)) == settings
    ensures MergeSettings(MergeSettings(settings, updates), updates) == MergeSettings(settings, updates)
  {
  }

  /** Removing an id drops one entry carrying it and keeps the others in order;
      an unknown id changes nothing. */
  lemma WithoutNotificationShape(ns: seq<Notification>, id: string)
    ensures id !in NotificationIds(ns) ==> WithoutNotification(ns, id) == ns
    ensures id in NotificationIds(ns) ==>
      var i := IndexOf(NotificationIds(ns), id);
      && ns[i].id == id
      && (forall j :: 0 <= j < i ==> ns[j].id != id)
      && |WithoutNotification(ns, id)| == |ns| - 1
      && multiset(WithoutNotification(ns, id)) + multiset{ns[i]} == multiset(ns)
      && Subsequence(WithoutNotification(ns, id), ns)
  {
    var ids := NotificationIds(ns);
    var i := IndexOf(ids, id);
    if i != -1 {
      forall j | 0 <= j < i ensures ns[j].id != id {
        assert ids[..i][j] == ns[j].id;
      }
      assert ns == ns[..i] + [ns[i]] + ns[i + 1..];
      SpliceSubsequence(ns, i);
    }
  }

  /** A notification added with a fresh id is removed again by that id. */
  lemma AddThenRemove(ns: seq<Notification>, id: string, c: NotificationContent)
    requires id !in NotificationIds(ns)
    ensures WithoutNotification(ns + [Notification(id, c)], id) == ns
  {
    var ns' := ns + [Notification(id, c)];
    var ids := NotificationIds(ns');
    assert ids == NotificationIds(ns) + [id];
    assert IndexOf(ids, id) == |ns|;
  }

  // ---------------------------------------------------------------------
  // The store
  // ---------------------------------------------------------------------

  class Ui {
    var sidebarCollapsed: bool
    var sidebarWidth: int
    var theme: Theme
    var resolvedTheme: ResolvedTheme
    var settings: AppSettings
    var activeDialog: DialogState
    var notifications: seq<Notification>
    var isLoading: bool
    var loadingMessage: Option<string>

    /** The sidebar width stays within its clamp. */
    ghost predicate Valid()
      reads this
    {
      MinSidebarWidth <= sidebarWidth <= MaxSidebarWidth
    }

    constructor()
      ensures Valid() && IsInitial(DefaultSettings, System, InitialSidebarWidth)
    {
      sidebarCollapsed := false;
      sidebarWidth := InitialSidebarWidth;
      theme := System;
      resolvedTheme := ResolvedLight;
      settings := DefaultSettings;
      activeDialog := DialogState(None, None);
      notifications := [];
      isLoading := false;
      loadingMessage := None;
    }

    /** The initial state, with the three persisted fields given. */
    ghost predicate IsInitial(s: AppSettings, t: Theme, width: int)
      reads this
    {
      && !sidebarCollapsed && sidebarWidth == width && theme == t && resolvedTheme == ResolvedLight
      && settings == s && activeDialog == DialogState(None, None) && notifications == []
      && !isLoading && loadingMessage == None
    }

    method ToggleSidebar()
      modifies this
      ensures sidebarCollapsed == !old(sidebarCollapsed)
      ensures sidebarWidth == old(sidebarWidth) && theme == old(theme) && resolvedTheme == old(resolvedTheme)
      ensures settings == old(settings) && activeDialog == old(activeDialog) && notifications == old(notifications)
      ensures isLoading == old(isLoading) && loadingMessage == old(loadingMessage)
    {
      sidebarCollapsed := !sidebarCollapsed;
    }

    method SetSidebarCollapsed(collapsed: bool)
      modifies this
      ensures sidebarCollapsed == collapsed
      ensures sidebarWidth == old(sidebarWidth) && theme == old(theme) && resolvedTheme == old(resolvedTheme)
      ensures settings == old(settings) && activeDialog == old(activeDialog) && notifications == old(notifications)
      ensures isLoading == old(isLoading) && loadingMessage == old(loadingMessage)
    {
      sidebarCollapsed := collapsed;
    }

    method SetSidebarWidth(width: int)
      modifies this
      ensures Valid()
      ensures sidebarWidth == ClampSidebarWidth(width)
      ensures sidebarCollapsed == old(sidebarCollapsed) && theme == old(theme) && resolvedTheme == old(resolvedTheme)
      ensures settings == old(settings) && activeDialog == old(activeDialog) && notifications == old(notifications)
      ensures isLoading == old(isLoading) && loadingMessage == old(loadingMessage)
    {
      sidebarWidth := if width < MinSidebarWidth then MinSidebarWidth else if width > MaxSidebarWidth then MaxSidebarWidth else width;
    }

    /** setTheme: the top-level theme and the settings' theme move together. */
    method SetTheme(t: Theme)
      modifies this
      ensures theme == t && settings == old(settings).(theme := t)
      ensures sidebarCollapsed == old(sidebarCollapsed) && sidebarWidth == old(sidebarWidth) && resolvedTheme == old(resolvedTheme)
      ensures activeDialog == old(activeDialog) && notifications == old(notifications)
      ensures isLoading == old(isLoading) && loadingMessage == old(loadingMessage)
    {
      theme := t;
      settings := settings.(theme := t);
    }

    method SetResolvedTheme(resolved: ResolvedTheme)
      modifies this
      ensures resolvedTheme == resolved
      ensures sidebarCollapsed == old(sidebarCollapsed) && sidebarWidth == old(sidebarWidth) && theme == old(theme)
      ensures settings == old(settings) && activeDialog == old(activeDialog) && notifications == old(notifications)
      ensures isLoading == old(isLoading) && loadingMessage == old(loadingMessage)
    {
      resolvedTheme := resolved;
    }

    /** updateSettings: merges the given keys; a given theme is mirrored. */
    method UpdateSettings(updates: SettingsUpdate)
      modifies this
      ensures settings == MergeSettings(old(settings), updates)
      ensures theme == if updates.theme.Some? then updates.theme.value else old(theme)
      ensures sidebarCollapsed == old(sidebarCollapsed) && sidebarWidth == old(sidebarWidth) && resolvedTheme == old(resolvedTheme)
      ensures activeDialog == old(activeDialog) && notifications == old(notifications)
      ensures isLoading == old(isLoading) && loadingMessage == old(loadingMessage)
    {
      var s := settings;
      if updates.indentType.Some? {
        s := s.(indentType := updates.indentType.value);
      }
      if updates.indentSize.Some? {
        s := s.(indentSize := updates.indentSize.value);
      }
      if updates.theme.Some? {
        s := s.(theme := updates.theme.value);
      }
      settings := s;
      if updates.theme.Some? {
        theme := updates.theme.value;
      }
    }

    function GetIndentString(): (r: string)
      reads this
      ensures r == IndentString(settings)
      ensures r == "\t" || forall i :: 0 <= i < |r| ==> r[i] == ' '
    {
      IndentString(settings)
    }

    method OpenDialog(dialogType: DialogType, props: Option<seq<(string, string)>>)
      modifies this
      ensures activeDialog == DialogState(Some(dialogType), props)
      ensures IsDialogOpen(dialogType)
      ensures sidebarCollapsed == old(sidebarCollapsed) && sidebarWidth == old(sidebarWidth) && theme == old(theme)
      ensures resolvedTheme == old(resolvedTheme) && settings == old(settings) && notifications == old(notifications)
      ensures isLoading == old(isLoading) && loadingMessage == old(loadingMessage)
    {
      activeDialog := DialogState(Some(dialogType), props);
    }

    method CloseDialog()
      modifies this
      ensures activeDialog == DialogState(None, None)
      ensures forall t :: !IsDialogOpen(t)
      ensures sidebarCollapsed == old(sidebarCollapsed) && sidebarWidth == old(sidebarWidth) && theme == old(theme)
      ensures resolvedTheme == old(resolvedTheme) && settings == old(settings) && notifications == old(notifications)
      ensures isLoading == old(isLoading) && loadingMessage == old(loadingMessage)
    {
      activeDialog := DialogState(None, None);
    }

    /** selectIsDialogOpen */
    predicate IsDialogOpen(t: DialogType)
      reads this
    {
      activeDialog.dialogType == Some(t)
    }

    /** addNotification: exactly one entry is appended, carrying the id; the
        auto-removal timer is not modelled. */
    method AddNotification(id: string, content: NotificationContent)
      modifies this
      ensures notifications == old(notifications) + [Notification(id, content)]
      ensures sidebarCollapsed == old(sidebarCollapsed) && sidebarWidth == old(sidebarWidth) && theme == old(theme)
      ensures resolvedTheme == old(resolvedTheme) && settings == old(settings) && activeDialog == old(activeDialog)
      ensures isLoading == old(isLoading) && loadingMessage == old(loadingMessage)
    {
      notifications := notifications + [Notification(id, content)];
    }

    /** removeNotification: `findIndex` then `splice`. */
    method RemoveNotification(id: string)
      modifies this
      ensures notifications == WithoutNotification(old(notifications), id)
      ensures sidebarCollapsed == old(sidebarCollapsed) && sidebarWidth == old(sidebarWidth) && theme == old(theme)
      ensures resolvedTheme == old(resolvedTheme) && settings == old(settings) && activeDialog == old(activeDialog)
      ensures isLoading == old(isLoading) && loadingMessage == old(loadingMessage)
    {
      var idx := FindNotification(notifications, id);
      if idx != -1 {
        notifications := notifications[..idx] + notifications[idx + 1..];
      }
    }

    method ClearNotifications()
      modifies this
      ensures notifications == []
      ensures sidebarCollapsed == old(sidebarCollapsed) && sidebarWidth == old(sidebarWidth) && theme == old(theme)
      ensures resolvedTheme == old(resolvedTheme) && settings == old(settings) && activeDialog == old(activeDialog)
      ensures isLoading == old(isLoading) && loadingMessage == old(loadingMessage)
    {
      notifications := [];
    }

    method SetLoading(loading: bool, message: Option<string>)
      modifies this
      ensures isLoading == loading && loadingMessage == message
      ensures sidebarCollapsed == old(sidebarCollapsed) && sidebarWidth == old(sidebarWidth) && theme == old(theme)
      ensures resolvedTheme == old(resolvedTheme) && settings == old(settings) && activeDialog == old(activeDialog)
      ensures notifications == old(notifications)
    {
      isLoading := loading;
      loadingMessage := message;
    }

    /** reset: the initial state, keeping the settings, theme and sidebar width. */
    method Reset()
      requires Valid()
      modifies this
      ensures Valid()
      ensures IsInitial(old(settings), old(theme), old(sidebarWidth))
    {
      sidebarCollapsed := false;
      resolvedTheme := ResolvedLight;
      activeDialog := DialogState(None, None);
      notifications := [];
      isLoading := false;
      loadingMessage := None;
    }
  }
}
