/** The per-session user registry: the `options` dictionary (display name to
    tag) and the `selectbox_options` list kept in Streamlit's session state,
    their guarded initialisation, `add_new_user`, and the lookup that turns
    the selected display name into a tag. */
module Registry {
  import opened Text

  datatype Option<T> = None | Some(value: T)

  /** The user a fresh session starts with, and the fallback of a lookup. */
  const DefaultUser: string := "Jerry"

  /** A display name as the registry stores it: non-empty, and neither
      starting nor ending with whitespace. */
  predicate WellFormedName(name: string)
  {
    name != [] && IsStripped(name)
  }

  predicate NoDuplicates(s: seq<string>)
  {
    forall i, j :: 0 <= i < j < |s| ==> s[i] != s[j]
  }

  /** The value of the two session-state entries. */
  datatype Users = Users(options: map<string, string>, selectboxOptions: seq<string>)

  /** What holds of `options` on its own: the default user is registered,
      every display name is its own tag, and every name is well formed. */
  predicate OptionsInv(options: map<string, string>)
  {
    && DefaultUser in options
    && forall name :: name in options ==> options[name] == name && WellFormedName(name)
  }

  /** The registry invariant: on top of `OptionsInv`, the selectable list
      has no duplicates and holds exactly the keys of `options`. */
  predicate UsersInv(u: Users)
  {
    && OptionsInv(u.options)
    && NoDuplicates(u.selectboxOptions)
    && (forall name :: name in u.selectboxOptions ==> name in u.options)
    && (forall name :: name in u.options ==> name in u.selectboxOptions)
  }

  /** `add_new_user`: the input, stripped, is registered as its own tag and
      appended to the selectable list, unless it is empty or already a key. */
  function AddUser(u: Users, input: string): (r: Users)
    ensures u.options.Keys <= r.options.Keys <= u.options.Keys + {Strip(input)}
  {
    var name := Strip(input);
    if name != [] && name !in u.options then
      Users(u.options[name := name], u.selectboxOptions + [name])
    else
      u
  }

  /** Appending a name the list does not hold keeps it duplicate-free. */
  lemma AppendFresh(s: seq<string>, name: string)
    requires NoDuplicates(s) && name !in s
    ensures NoDuplicates(s + [name])
  {
    var t := s + [name];
    forall i, j | 0 <= i < j < |t|
      ensures t[i] != t[j]
    {
      if j < |s| {
        assert t[i] == s[i] && t[j] == s[j];
      } else {
        assert t[i] == s[i] && t[j] == name;
      }
    }
  }

  /** `add_new_user` keeps the registry invariant: no duplicates in the
      list, list elements equal to the keys, every key its own tag, the
      default user present, and every stored name well formed. */
  lemma AddUserPreservesInv(u: Users, input: string)
    requires UsersInv(u)
    ensures UsersInv(AddUser(u, input))
  {
    var name := Strip(input);
    if name != [] && name !in u.options {
      var r := AddUser(u, input);
      assert WellFormedName(name);
      assert OptionsInv(r.options);
      AppendFresh(u.selectboxOptions, name);
      assert forall n :: n in r.selectboxOptions <==> n in u.selectboxOptions || n == name;
    }
  }

  /** An empty or already registered name leaves both structures as they
      were; a fresh one adds exactly one key, mapped to itself, and exactly
      one list element, at the end, and keeps everything that was there. */
  lemma AddUserEffect(u: Users, input: string)
    ensures var name, r := Strip(input), AddUser(u, input);
      if name == [] || name in u.options then
        r == u
      else
        && r.options.Keys == u.options.Keys + {name}
        && r.options[name] == name
        && (forall n :: n in u.options ==> r.options[n] == u.options[n])
        && |r.options| == |u.options| + 1
        && |r.selectboxOptions| == |u.selectboxOptions| + 1
        && r.selectboxOptions[..|u.selectboxOptions|] == u.selectboxOptions
        && r.selectboxOptions[|u.selectboxOptions|] == name
  {
    var name, r := Strip(input), AddUser(u, input);
    if name != [] && name !in u.options {
      assert r.selectboxOptions[..|u.selectboxOptions|] == u.selectboxOptions;
    }
  }

  /** In a valid registry, the stripped input is registered and selectable
      afterwards exactly when it is non-empty, and every name the call adds
      is that stripped input. */
  lemma AddUserRegisters(u: Users, input: string)
    requires UsersInv(u)
    ensures var name, r := Strip(input), AddUser(u, input);
      && (name in r.options <==> name != [])
      && (name in r.selectboxOptions <==> name != [])
      && forall n :: n in r.options && n !in u.options ==> n == name
  {
  }

  /** Adding the same input a second time changes nothing. */
  lemma AddUserIdempotent(u: Users, input: string)
    ensures AddUser(AddUser(u, input), input) == AddUser(u, input)
  {
  }

  /** `st.session_state.options.get(selected_option, "Jerry")`; the
      selection is absent when the select box has nothing to offer. */
  function Resolve(options: map<string, string>, selected: Option<string>): (tag: string)
    ensures tag == DefaultUser || tag in options.Values
  {
    if selected.Some? && selected.value in options then options[selected.value] else DefaultUser
  }

  /** In a valid registry the resolved tag is always a registered user: the
      selected name itself when it is registered, the default user otherwise. */
  lemma ResolveRegistered(u: Users, selected: Option<string>)
    requires UsersInv(u)
    ensures Resolve(u.options, selected) in u.options
    ensures Resolve(u.options, selected) == if selected.Some? && selected.value in u.options then selected.value else DefaultUser
  {
  }

  /** `list(options.keys())`: every key once. Python lists the keys in
      insertion order; this model leaves the order open. */
  method KeysToList(m: map<string, string>) returns (s: seq<string>)
    ensures |s| == |m|
    ensures NoDuplicates(s)
    ensures forall n :: n in s <==> n in m
  {
    s := [];
    var rest := m.Keys;
    while rest != {}
      invariant rest <= m.Keys
      invariant |s| + |rest| == |m|
      invariant NoDuplicates(s)
      invariant forall n :: n in s <==> n in m && n !in rest
      decreases rest
    {
      var n :| n in rest;
      s := s + [n];
      rest := rest - {n};
    }
  }

  /** The slice of `st.session_state` the registry lives in. A flag says
      whether the session already holds the corresponding entry. */
  class Session {
    var hasOptions: bool
    var options: map<string, string>
    var hasSelectboxOptions: bool
    var selectboxOptions: seq<string>

    function View(): Users
      reads this
    {
      Users(options, selectboxOptions)
    }

    /** The states the app can leave a session in, initialised or not. */
    ghost predicate Consistent()
      reads this
    {
      && (hasOptions ==> OptionsInv(options))
      && (hasSelectboxOptions ==> hasOptions && UsersInv(View()))
    }

    /** An initialised session whose registry satisfies the invariant. */
    ghost predicate Valid()
      reads this
    {
      hasOptions && hasSelectboxOptions && UsersInv(View())
    }

    /** A fresh session: neither entry is present yet. */
    constructor ()
      ensures Consistent()
      ensures !hasOptions && !hasSelectboxOptions
    {
      hasOptions, options := false, map[];
      hasSelectboxOptions, selectboxOptions := false, [];
    }

    /** The guarded initialisation run at the top of every page render: an
        absent `options` becomes `{"Jerry": "Jerry"}`, an absent
        `selectbox_options` becomes the keys of `options`, and an entry
        already present is left alone. */
    method Initialize()
      requires Consistent()
      modifies this
      ensures Valid()
      ensures old(hasOptions) ==> options == old(options)
      ensures old(hasSelectboxOptions) ==> selectboxOptions == old(selectboxOptions)
      ensures !old(hasOptions) ==> options == map[DefaultUser := DefaultUser] && selectboxOptions == [DefaultUser]
    {
      if !hasOptions {
        options := map[DefaultUser := DefaultUser];
        hasOptions := true;
      }
      if !hasSelectboxOptions {
        selectboxOptions := KeysToList(options);
        hasSelectboxOptions := true;
        assert options == map[DefaultUser := DefaultUser] ==> selectboxOptions == [DefaultUser] by {
          if options == map[DefaultUser := DefaultUser] {
            assert DefaultUser in selectboxOptions;
          }
        }
      }
    }

    /** `add_new_user`, updating the session's dictionary and list in place. */
    method AddNewUser(input: string)
      requires Valid()
      modifies this
      ensures Valid()
      ensures View() == AddUser(old(View()), input)
    {
      AddUserPreservesInv(View(), input);
      var name := Strip(input);
      if name != [] && name !in options {
        options := options[name := name];
        selectboxOptions := selectboxOptions + [name];
      }
    }
  }
}
