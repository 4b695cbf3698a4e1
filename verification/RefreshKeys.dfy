/** Why `RefreshTokens` may tell its keys apart by kind: in the three-segment layout their texts do. */
module RefreshKeys {
  import opened Wrappers
  import opened Keys
  import opened KeyNames
  import R = RefreshTokens

  /** The named keys a refresh touches. */
  predicate InStore(name: Name) {
    name.Refresh? || name.RefreshUserIndex? || name.TokenInfo? || name.TokenIdMapping? || name.LoginToken? || name.LoginTokenIndex?
  }

  function KeyOf(c: R.Config, name: Name): R.Key
    requires InStore(name)
  {
    match name
    case Refresh(token) => c.RefreshKey(token)
    case RefreshUserIndex(t, id) => c.IndexOf(t, id)
    case TokenInfo(token) => R.TokenBody(token)
    case TokenIdMapping(token) => R.TokenId(token)
    case LoginToken(t, id) => R.LoginToken(c.keys.Account("login:token", t, id))
    case LoginTokenIndex(t, id) => c.LoginIndexOf(t, id)
  }

  /** Two of these names have one key in the model exactly when they have one text. */
  lemma KeysAreTexts(c: R.Config, a: Name, b: Name)
    requires c.keys.layout.ThreeSegment? && InStore(a) && InStore(b)
    ensures KeyOf(c, a) == KeyOf(c, b) <==> Text(c.keys.root, a) == Text(c.keys.root, b)
  {
    assert c.keys == SaKeys(c.keys.root, ThreeSegment);
    if !((a.Refresh? || a.RefreshUserIndex?) && (b.Refresh? || b.RefreshUserIndex?)) && Text(c.keys.root, a) == Text(c.keys.root, b) {
      OtherKinds(c.keys.root, a, b);
      SameCategorySameKind(a, b);
    }
  }

  lemma OtherKinds(root: string, a: Name, b: Name)
    requires InStore(a) && InStore(b) && !((a.Refresh? || a.RefreshUserIndex?) && (b.Refresh? || b.RefreshUserIndex?))
    requires Text(root, a) == Text(root, b)
    ensures Category(a) == Category(b) && Tail(a) == Tail(b)
  {
    KeysCoincide(root, a, b);
    if Nests(Category(a), Category(b)) {
      NestingCategories(a, b);
    } else if Nests(Category(b), Category(a)) {
      NestingCategories(b, a);
    }
  }

  /** The six categories differ. */
  lemma SameCategorySameKind(a: Name, b: Name)
    requires InStore(a) && InStore(b) && Category(a) == Category(b)
    ensures a.Refresh? == b.Refresh? && a.RefreshUserIndex? == b.RefreshUserIndex? && a.TokenInfo? == b.TokenInfo?
    ensures a.TokenIdMapping? == b.TokenIdMapping? && a.LoginToken? == b.LoginToken? && a.LoginTokenIndex? == b.LoginTokenIndex?
  {
    assert |"refresh"| == 7 && |"refresh:user"| == 12 && |"token"| == 5 && |"token-id"| == 8 && |"login:token"| == 11;
  }
}
