/** The Postman collection and environment objects (the objects package): plain records with no
    behaviour of their own. A Java reference that may be null is an Option; a list whose
    elements the code tests for null holds Options. */
module Objects {
  import opened Wrappers

  datatype Credential = Credential(key: Option<string>, value: Option<string>, credType: Option<string>)

  datatype Auth = Auth(authType: Option<string>, basic: Option<seq<Credential>>, bearer: Option<seq<Credential>>)

  datatype Header = Header(key: Option<string>, value: Option<string>, headerType: Option<string>, disabled: Option<bool>)

  datatype Query = Query(key: Option<string>, value: Option<string>)

  /** `language` stands for `options.raw.language`, absent when any link of that chain is null. */
  datatype Body = Body(mode: Option<string>, raw: Option<string>, language: Option<string>)

  datatype Url = Url(raw: Option<string>, protocol: Option<string>, host: Option<seq<string>>,
                     path: Option<seq<string>>, query: Option<seq<Option<Query>>>, port: Option<string>,
                     hash: Option<string>)

  datatype Request = Request(httpMethod: Option<string>, auth: Option<Auth>, header: Option<seq<Option<Header>>>,
                             body: Option<Body>, url: Option<Url>)

  datatype Variable = Variable(key: Option<string>, value: Option<string>, varType: Option<string>)

  datatype Script = Script(scriptType: Option<string>, exec: Option<seq<string>>)

  datatype Event = Event(listen: Option<string>, script: Option<Script>)

  /** A folder (nested `item`s) or a request; item-level events are carried but never stored. */
  datatype Item = Item(name: Option<string>, request: Option<Request>, item: ItemList,
                       variable: Option<seq<Variable>>, event: Option<seq<Event>>)

  /** The `item` list of an item: a null reference or a list. It has a type of its own so that
      a child is structurally smaller than the item holding it. */
  datatype ItemList = NoItems | ItemList(list: seq<Item>)

  /** The children of an item; none for a null list. */
  function Children(it: Item): seq<Item> {
    if it.item.ItemList? then it.item.list else []
  }

  datatype Info = Info(postmanId: Option<string>, name: Option<string>, schema: Option<string>,
                       exporterId: Option<string>, description: Option<string>)

  datatype PostmanCollection = PostmanCollection(info: Option<Info>, item: Option<seq<Item>>,
                                                 event: Option<seq<Event>>, variable: Option<seq<Variable>>)

  datatype EnvironmentValue = EnvironmentValue(key: Option<string>, value: Option<string>, enabled: Option<bool>,
                                               valueType: Option<string>)

  datatype PostmanEnvironment = PostmanEnvironment(id: Option<string>, name: Option<string>,
                                                   values: Option<seq<EnvironmentValue>>, variableScope: Option<string>,
                                                   exportedAt: Option<string>, exportedUsing: Option<string>)

  /** `new Url()`: every field null. */
  const EmptyUrl := Url(None, None, None, None, None, None, None)

  /** `new Request()`: every field null. */
  const EmptyRequest := Request(None, None, None, None, None)

  /** `new PostmanEnvironmentValue()`: every field null. */
  const EmptyEnvironmentValue := EnvironmentValue(None, None, None, None)

  /** A list without null elements (the code dereferences every element). */
  predicate NoNulls<T>(xs: seq<Option<T>>) {
    forall i :: 0 <= i < |xs| ==> xs[i].Some?
  }
}
