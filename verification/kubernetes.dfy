/** The name and network-annotation helpers of the Kubernetes compiler
    (seedemu/compiler/Kubernetes.py), which turns the compose services of
    an emulation into pods attached to macvlan networks. */
module Kubernetes {
  import opened Wrappers
  import opened Strings
  import opened Ipv4

  /** The characters `getKubernetesName` turns into `-`. */
  predicate Replaced(c: char)
  {
    c == '_' || c == '.' || c == ' '
  }

  /** `getKubernetesName`: `_`, `.` and space each become `-`. */
  function KubeName(name: string): (r: string)
    ensures |r| == |name|
    ensures forall i :: 0 <= i < |name| ==> r[i] == if Replaced(name[i]) then '-' else name[i]
  {
    ReplaceChar(ReplaceChar(ReplaceChar(name, '_', '-'), '.', '-'), ' ', '-')
  }

  predicate NoReplaced(s: string)
  {
    forall i :: 0 <= i < |s| ==> !Replaced(s[i])
  }

  /** None of the three characters is left. */
  lemma KubeNameClean(name: string)
    ensures NoReplaced(KubeName(name))
  {
  }

  /** A name is left alone exactly when it holds none of the three. */
  lemma KubeNameFixed(name: string)
    ensures KubeName(name) == name <==> NoReplaced(name)
  {
    if !NoReplaced(name) {
      var i :| 0 <= i < |name| && Replaced(name[i]);
      assert KubeName(name)[i] != name[i];
    }
  }

  lemma KubeNameIdempotent(name: string)
    ensures KubeName(KubeName(name)) == KubeName(name)
  {
    KubeNameClean(name);
    KubeNameFixed(KubeName(name));
  }

  /** Different compose names can share a Kubernetes name. */
  lemma KubeNameMerges()
    ensures KubeName("a_b") == KubeName("a.b") == KubeName("a b") == "a-b"
  {
    JoinedBy('_');
    JoinedBy('.');
    JoinedBy(' ');
  }

  lemma JoinedBy(c: char)
    requires Replaced(c)
    ensures KubeName(['a', c, 'b']) == "a-b"
  {
    var k := KubeName(['a', c, 'b']);
    assert k[0] == 'a' && k[1] == '-' && k[2] == 'b';
  }

  /** `getYamlFileName`. */
  function YamlFileName(name: string): (r: string)
    ensures |r| == |name| + 4
  {
    KubeName(name) + ".yml"
  }

  /** The file name has exactly one dot, before the `yml` extension, and
      what precedes it is the Kubernetes name. */
  lemma YamlFileNameParts(name: string)
    ensures Split(YamlFileName(name), '.') == [KubeName(name), "yml"]
  {
    KubeNameClean(name);
    assert '.' !in KubeName(name) by {
      forall i | 0 <= i < |KubeName(name)| ensures KubeName(name)[i] != '.' {
        assert !Replaced(KubeName(name)[i]);
      }
    }
    assert Join([KubeName(name), "yml"], '.') == YamlFileName(name);
    SplitJoin([KubeName(name), "yml"], '.');
  }

  /** The annotation name of an interface: exchange interfaces (`ix...`)
      get `net-ix-<iface>`, the others `net-<asn>-<iface>`. */
  function AnnotationName(iface: string, asn: string): (r: string)
    ensures StartsWith(iface, "ix") ==> StartsWith(r, "net-ix-")
    ensures !StartsWith(iface, "ix") ==> StartsWith(r, "net-" + asn + "-")
  {
    if StartsWith(iface, "ix") then "net-ix-" + iface else "net-" + asn + "-" + iface
  }

  /** Within one AS whose number is written in digits, distinct
      interfaces get distinct annotation names. */
  lemma AnnotationNameInjective(asn: string, i1: string, i2: string)
    requires IsDigits(asn)
    requires AnnotationName(i1, asn) == AnnotationName(i2, asn)
    ensures i1 == i2
  {
    var n1 := AnnotationName(i1, asn);
    var n2 := AnnotationName(i2, asn);
    if StartsWith(i1, "ix") && StartsWith(i2, "ix") {
      assert n1[7..] == i1 && n2[7..] == i2;
    } else if StartsWith(i1, "ix") {
      IxNamesDiffer(asn, i1, i2);
    } else if StartsWith(i2, "ix") {
      IxNamesDiffer(asn, i2, i1);
    } else {
      var k := 5 + |asn|;
      assert n1[k..] == i1 && n2[k..] == i2;
    }
  }

  /** An exchange annotation name never equals an AS one: the fifth
      character is `i` in one and a digit or `-` in the other. */
  lemma IxNamesDiffer(asn: string, a: string, b: string)
    requires IsDigits(asn)
    ensures "net-ix-" + a != "net-" + asn + "-" + b
  {
    var x := "net-ix-" + a;
    var y := "net-" + asn + "-" + b;
    assert x[4] == 'i';
    assert y[4] == if |asn| == 0 then '-' else asn[0];
  }

  /** `'.'.join(address.split('/')[0].split('.')[:-1]) + '.254'`: the
      address's last label replaced by `254`. */
  function DefaultRoute(address: string): string
  {
    var labels := Split(Split(address, '/')[0], '.');
    Join(labels[..|labels| - 1], '.') + ".254"
  }

  /** The part of a CIDR text before the slash is the address. */
  lemma CidrAddressPart(c: Cidr)
    requires IsAddress(c.addr)
    ensures Split(CidrText(c), '/')[0] == AddrText(c.addr)
  {
    AddrTextCharacters(c.addr);
    SplitPrefix(AddrText(c.addr), "/" + NatText(c.len), '/');
    assert CidrText(c) == AddrText(c.addr) + ("/" + NatText(c.len));
    assert Split("/" + NatText(c.len), '/')[0] == "";
    assert AddrText(c.addr) + "" == AddrText(c.addr);
  }

  /** Host 254 of the `/24` around `a` keeps its first three octets. */
  lemma GatewayOctets(a: nat)
    requires IsAddress(a)
    ensures IsAddress(a / 256 * 256 + 254)
    ensures Octets(a / 256 * 256 + 254) == Octets(a)[..3] + [254]
  {
    var g := a / 256 * 256 + 254;
    assert g / 256 == a / 256;
    assert g % 256 == 254;
  }

  lemma Text254()
    ensures NatText(254) == "254"
  {
    assert NatText(2) == "2";
    assert NatText(25) == "25";
  }

  /** The default route computed from a CIDR text: the first three
      octet texts and `254`. */
  lemma DefaultRouteLabels(c: Cidr)
    requires IsAddress(c.addr)
    ensures DefaultRoute(CidrText(c)) == Join(OctetTexts(Octets(c.addr))[..3], '.') + ".254"
  {
    CidrAddressPart(c);
    AddrTextSplit(c.addr);
  }

  /** Host 254 of the `/24` around `a`, printed. */
  lemma GatewayText(a: nat)
    requires IsAddress(a)
    ensures IsAddress(a / 256 * 256 + 254)
    ensures AddrText(a / 256 * 256 + 254) == Join(OctetTexts(Octets(a))[..3] + ["254"], '.')
  {
    GatewayOctets(a);
    Text254();
    var g := a / 256 * 256 + 254;
    assert OctetTexts(Octets(g)) == OctetTexts(Octets(a))[..3] + ["254"];
  }

  /** For an interface address in CIDR text, the default route is host
      254 of the `/24` around the address, whatever the prefix length. */
  lemma DefaultRouteOfCidr(c: Cidr)
    requires IsAddress(c.addr)
    ensures IsAddress(c.addr / 256 * 256 + 254)
    ensures DefaultRoute(CidrText(c)) == AddrText(c.addr / 256 * 256 + 254)
  {
    DefaultRouteLabels(c);
    GatewayText(c.addr);
    JoinLast(OctetTexts(Octets(c.addr))[..3], "254");
  }

  /** Appending a piece to a non-empty join. */
  lemma {:induction false} JoinLast(parts: seq<string>, last: string)
    requires |parts| >= 1
    ensures Join(parts + [last], '.') == Join(parts, '.') + "." + last
  {
    if |parts| > 1 {
      JoinLast(parts[1..], last);
      assert (parts + [last])[1..] == parts[1..] + [last];
    }
  }

  /** One network of a service: its interface name and, once its address
      label has been read, the address in CIDR text. */
  datatype Network = Network(iface: string, address: Option<string>)

  /** One element of the `k8s.v1.cni.cncf.io/networks` annotation. */
  datatype Annotation = Annotation(namespace: string, iface: string, name: string, ips: seq<Option<string>>,
                                   defaultRoute: Option<seq<string>>)

  function NetworkAnnotation(net: Network, namespace: string, asn: string, isRouter: bool): (r: Result<Annotation>)
    ensures r.Failure? <==> !isRouter && net.address.None?
    ensures r.Success? ==> r.value.iface == net.iface && r.value.ips == [net.address]
                           && r.value.name == AnnotationName(net.iface, asn) && r.value.namespace == namespace
    ensures r.Success? ==> (r.value.defaultRoute.None? <==> isRouter)
    ensures r.Success? && !isRouter ==> r.value.defaultRoute == Some([DefaultRoute(net.address.value)])
  {
    if !isRouter && net.address.None? then Failure("'NoneType' object has no attribute 'split'")
    else
      Success(Annotation(namespace, net.iface, AnnotationName(net.iface, asn), [net.address],
                         if isRouter then None else Some([DefaultRoute(net.address.value)])))
  }

  /** `getNetworkAnnotations`, before JSON encoding: one annotation per
      network, in order; a host network without an address fails. */
  function NetworkAnnotations(nets: seq<Network>, namespace: string, asn: string, isRouter: bool)
    : (r: Result<seq<Annotation>>)
    ensures r.Failure? <==> exists i :: 0 <= i < |nets| && !isRouter && nets[i].address.None?
    ensures r.Success? ==> |r.value| == |nets|
    ensures r.Success? ==> forall i :: 0 <= i < |nets| ==>
                             Success(r.value[i]) == NetworkAnnotation(nets[i], namespace, asn, isRouter)
  {
    if |nets| == 0 then Success([])
    else
      var init := nets[..|nets| - 1];
      var last := nets[|nets| - 1];
      assert forall i :: 0 <= i < |init| ==> init[i] == nets[i];
      var prev :- NetworkAnnotations(init, namespace, asn, isRouter);
      var a :- NetworkAnnotation(last, namespace, asn, isRouter);
      Success(prev + [a])
  }

  /** A router's annotations carry no default route; a host's each carry
      the `.254` gateway of its address. */
  lemma RoutersHaveNoDefaultRoute(nets: seq<Network>, namespace: string, asn: string, isRouter: bool, i: nat)
    requires NetworkAnnotations(nets, namespace, asn, isRouter).Success? && i < |nets|
    ensures var a := NetworkAnnotations(nets, namespace, asn, isRouter).value[i];
            (a.defaultRoute.None? <==> isRouter)
            && (!isRouter ==> nets[i].address.Some? && a.defaultRoute == Some([DefaultRoute(nets[i].address.value)]))
  {
    var a := NetworkAnnotations(nets, namespace, asn, isRouter).value[i];
    assert Success(a) == NetworkAnnotation(nets[i], namespace, asn, isRouter);
  }

  /** A service is a router when its converted role label starts with
      `Route`. */
  predicate IsRouter(role: string)
  {
    StartsWith(KubeName(role), "Route")
  }

  /** The conversion cannot affect the `Route` prefix, so the test is on
      the role label as written. */
  lemma IsRouterIffRole(role: string)
    ensures IsRouter(role) <==> StartsWith(role, "Route")
  {
    if |role| >= 5 {
      forall i | 0 <= i < 5 ensures (KubeName(role)[i] == "Route"[i]) <==> (role[i] == "Route"[i]) {
      }
      if StartsWith(role, "Route") {
        assert KubeName(role)[..5] == "Route";
      }
      if IsRouter(role) {
        assert role[..5] == "Route";
      }
    }
  }

  /** The role labels the compose compiler writes for routers and route
      servers make them routers here. */
  lemma RouterRoles()
    ensures IsRouter("Router") && IsRouter("Route Server")
  {
    RouteThen("r");
    assert "Route" + "r" == "Router";
    RouteThen(" Server");
    assert "Route" + " Server" == "Route Server";
  }

  /** Hosts and service workers are not routers. */
  lemma OtherRoles()
    ensures !IsRouter("Host") && !IsRouter("Emulator Service Worker")
  {
    NotRoutePrefix("Host");
    NotRoutePrefix("Emulator Service Worker");
  }

  lemma NotRoutePrefix(role: string)
    requires |role| < 5 || role[0] != 'R'
    ensures !IsRouter(role)
  {
    IsRouterIffRole(role);
    if |role| >= 5 {
      assert role[..5][0] != "Route"[0];
    }
  }

  lemma RouteThen(rest: string)
    ensures IsRouter("Route" + rest)
  {
    var role := "Route" + rest;
    assert role[..5] == "Route";
    IsRouterIffRole(role);
  }

  /** The compose service `parseServices` never turns into a pod. */
  const SkippedService := "cfee3a34e9c68ac1d16035a81a926786"

  /** A compose service, with the labels `parseServices` reads already
      taken apart. */
  datatype Service = Service(name: string, containerName: string, role: Option<string>, asn: string,
                             networks: seq<Network>)

  /** The pod a service becomes, before YAML encoding. */
  datatype Pod = Pod(fileName: string, name: string, namespace: string, image: string, containerName: string,
                     annotations: seq<Annotation>)

  /** A service gets a pod unless it is not a router and one of its
      networks has no address; the pod carries one annotation per
      network, in network order. */
  function ServicePod(s: Service, namespace: string, project: string): (r: Result<Pod>)
    ensures r.Failure? <==> exists i :: 0 <= i < |s.networks| && !(s.role.Some? && IsRouter(s.role.value))
                                        && s.networks[i].address.None?
    ensures r.Success? ==> r.value.fileName == YamlFileName(s.name) && r.value.name == KubeName(s.name)
                           && r.value.namespace == namespace
                           && r.value.image == project + "-" + s.name
                           && r.value.containerName == KubeName(s.containerName)
    ensures r.Success? ==> && |r.value.annotations| == |s.networks|
                           && forall i :: 0 <= i < |s.networks| ==>
                                Success(r.value.annotations[i])
                                  == NetworkAnnotation(s.networks[i], namespace, s.asn,
                                                       s.role.Some? && IsRouter(s.role.value))
  {
    var router := s.role.Some? && IsRouter(s.role.value);
    var annotations :- NetworkAnnotations(s.networks, namespace, s.asn, router);
    Success(Pod(YamlFileName(s.name), KubeName(s.name), namespace, project + "-" + s.name,
                KubeName(s.containerName), annotations))
  }

  /** `parseServices`: a pod for every service but the skipped one, in
      order. */
  function ParseServices(services: seq<Service>, namespace: string, project: string): (r: Result<seq<Pod>>)
    ensures r.Success? ==> |r.value| == |Kept(services)|
    ensures r.Success? ==> forall i :: 0 <= i < |r.value| ==>
                             Success(r.value[i]) == ServicePod(Kept(services)[i], namespace, project)
  {
    if |services| == 0 then Success([])
    else
      var init := services[..|services| - 1];
      var last := services[|services| - 1];
      var kept := Kept(services);
      assert kept == Kept(init) + (if last.name == SkippedService then [] else [last]);
      assert forall i :: 0 <= i < |Kept(init)| ==> kept[i] == Kept(init)[i];
      var prev :- ParseServices(init, namespace, project);
      if last.name == SkippedService then Success(prev)
      else
        var pod :- ServicePod(last, namespace, project);
        Success(prev + [pod])
  }

  /** The whole parse fails exactly when one kept service fails to become
      a pod. */
  lemma {:induction false} ParseServicesFails(services: seq<Service>, namespace: string, project: string)
    ensures ParseServices(services, namespace, project).Failure? <==> SomeFails(Kept(services), namespace, project)
  {
    if |services| > 0 {
      var init := services[..|services| - 1];
      var last := services[|services| - 1];
      var tail := if last.name == SkippedService then [] else [last];
      assert Kept(services) == Kept(init) + tail;
      ParseServicesFails(init, namespace, project);
      SomeFailsAppend(Kept(init), tail, namespace, project);
      if tail == [last] {
        assert tail[0] == last;
      }
    }
  }

  /** Some service of `kept` fails to become a pod. */
  predicate SomeFails(kept: seq<Service>, namespace: string, project: string)
  {
    exists i :: 0 <= i < |kept| && ServicePod(kept[i], namespace, project).Failure?
  }

  lemma SomeFailsAppend(a: seq<Service>, b: seq<Service>, namespace: string, project: string)
    ensures SomeFails(a + b, namespace, project) <==> SomeFails(a, namespace, project) || SomeFails(b, namespace, project)
  {
    var ab := a + b;
    if SomeFails(ab, namespace, project) {
      var i :| 0 <= i < |ab| && ServicePod(ab[i], namespace, project).Failure?;
      if i < |a| {
        assert ab[i] == a[i];
      } else {
        assert ab[i] == b[i - |a|];
      }
    }
    if SomeFails(a, namespace, project) {
      var i :| 0 <= i < |a| && ServicePod(a[i], namespace, project).Failure?;
      assert ab[i] == a[i];
    }
    if SomeFails(b, namespace, project) {
      var i :| 0 <= i < |b| && ServicePod(b[i], namespace, project).Failure?;
      assert ab[|a| + i] == b[i];
    }
  }

  /** The services that become pods, in order. */
  function Kept(services: seq<Service>): (r: seq<Service>)
    ensures forall s :: s in r <==> s in services && s.name != SkippedService
  {
    if |services| == 0 then []
    else
      var init := services[..|services| - 1];
      var last := services[|services| - 1];
      assert services == init + [last];
      Kept(init) + (if last.name == SkippedService then [] else [last])
  }

  /** No pod carries the skipped service's name: only that name itself
      converts to it. */
  lemma SkippedHasNoPod(services: seq<Service>, namespace: string, project: string, i: nat)
    requires ParseServices(services, namespace, project).Success?
    requires i < |ParseServices(services, namespace, project).value|
    ensures ParseServices(services, namespace, project).value[i].name != SkippedService
  {
    var pods := ParseServices(services, namespace, project).value;
    var s := Kept(services)[i];
    assert s in Kept(services);
    assert Success(pods[i]) == ServicePod(s, namespace, project);
    NoReplacedSkipped();
    KubeNameFixed(SkippedService);
    if pods[i].name == SkippedService {
      KubeNameIsSkipped(s.name);
    }
  }

  lemma NoReplacedSkipped()
    ensures NoReplaced(SkippedService)
  {
  }

  /** Only the skipped name itself converts to the skipped name, since
      that name holds no `-`. */
  lemma KubeNameIsSkipped(name: string)
    requires KubeName(name) == SkippedService
    ensures name == SkippedService
  {
    NoDashSkipped();
    KubeNameNoDash(name, SkippedService);
  }

  lemma NoDashSkipped()
    ensures forall i :: 0 <= i < |SkippedService| ==> SkippedService[i] != '-'
  {
  }

  /** A converted name without `-` is the name itself. */
  lemma KubeNameNoDash(name: string, t: string)
    requires KubeName(name) == t
    requires forall i :: 0 <= i < |t| ==> t[i] != '-'
    ensures name == t
  {
    forall i | 0 <= i < |name| ensures name[i] == t[i] {
      assert KubeName(name)[i] == t[i];
    }
  }

  /** An entry of `self.__files`: a network's YAML (its text is template
      formatting, left out) or a pod's. */
  datatype File = NetworkFile(network: string) | PodFile(pod: Pod)

  /** The names `pods` are stored under. */
  function FileNames(pods: seq<Pod>): set<string>
  {
    set i | 0 <= i < |pods| :: pods[i].fileName
  }

  /** `self.__files[name] = ...` for each pod in turn: a later pod replaces
      whatever an earlier pod or a network stored under the same name. */
  function Store(files: map<string, File>, pods: seq<Pod>): (r: map<string, File>)
    ensures r.Keys == files.Keys + FileNames(pods)
  {
    if |pods| == 0 then files
    else
      var init := pods[..|pods| - 1];
      var last := pods[|pods| - 1];
      var prev := Store(files, init);
      assert FileNames(pods) == FileNames(init) + {last.fileName} by {
        forall n | n in FileNames(pods) ensures n in FileNames(init) + {last.fileName} {
          var i :| 0 <= i < |pods| && pods[i].fileName == n;
          if i < |init| {
            assert init[i] == pods[i];
          }
        }
        forall n | n in FileNames(init) ensures n in FileNames(pods) {
          var i :| 0 <= i < |init| && init[i].fileName == n;
          assert pods[i] == init[i];
        }
      }
      prev[last.fileName := PodFile(last)]
  }

  /** A pod no later pod shares a file name with is the one stored under
      that name. */
  lemma {:induction false} StoreLastWins(files: map<string, File>, pods: seq<Pod>, j: nat)
    requires j < |pods|
    requires forall l :: j < l < |pods| ==> pods[l].fileName != pods[j].fileName
    ensures Store(files, pods)[pods[j].fileName] == PodFile(pods[j])
  {
    var init := pods[..|pods| - 1];
    if j < |pods| - 1 {
      assert init[j] == pods[j];
      forall l | j < l < |init| ensures init[l].fileName != init[j].fileName {
        assert init[l] == pods[l];
      }
      StoreLastWins(files, init, j);
    }
  }

  /** A name no pod uses keeps what was stored under it before. */
  lemma {:induction false} StoreKeeps(files: map<string, File>, pods: seq<Pod>, name: string)
    requires name in files && name !in FileNames(pods)
    ensures Store(files, pods)[name] == files[name]
  {
    if |pods| > 0 {
      var init := pods[..|pods| - 1];
      forall i | 0 <= i < |init| ensures init[i].fileName != name {
        assert init[i] == pods[i] && pods[i].fileName in FileNames(pods);
      }
      assert pods[|pods| - 1].fileName in FileNames(pods);
      StoreKeeps(files, init, name);
    }
  }

  /** `parseServices` as it acts on `self.__files`: on success every kept
      service has a file under its YAML name, and nothing else is added. */
  function ParseServicesInto(files: map<string, File>, services: seq<Service>, namespace: string, project: string)
    : (r: Result<map<string, File>>)
    ensures r.Failure? <==> SomeFails(Kept(services), namespace, project)
    ensures r.Success? ==> forall i :: 0 <= i < |Kept(services)| ==> YamlFileName(Kept(services)[i].name) in r.value
    ensures r.Success? ==> forall n :: n in r.value ==>
              n in files || exists i :: 0 <= i < |Kept(services)| && n == YamlFileName(Kept(services)[i].name)
  {
    ParseServicesFails(services, namespace, project);
    var pods :- ParseServices(services, namespace, project);
    var r := Store(files, pods);
    assert forall i :: 0 <= i < |pods| ==> pods[i].fileName == YamlFileName(Kept(services)[i].name);
    assert forall i :: 0 <= i < |pods| ==> pods[i].fileName in FileNames(pods);
    Success(r)
  }

  /** Two services with the same YAML file name leave only the second
      one's pod in that file. */
  lemma SecondPodWins(s1: Service, s2: Service, namespace: string, project: string)
    requires s1.name != SkippedService && s2.name != SkippedService
    requires ServicePod(s1, namespace, project).Success? && ServicePod(s2, namespace, project).Success?
    requires YamlFileName(s1.name) == YamlFileName(s2.name)
    ensures ParseServicesInto(map[], [s1, s2], namespace, project)
              == Success(map[YamlFileName(s2.name) := PodFile(ServicePod(s2, namespace, project).value)])
  {
    var p1 := ServicePod(s1, namespace, project).value;
    var p2 := ServicePod(s2, namespace, project).value;
    TwoPods(s1, s2, namespace, project);
    ParseServicesIntoStores(map[], [s1, s2], namespace, project);
    TwoStores(p1, p2);
  }

  lemma TwoPods(s1: Service, s2: Service, namespace: string, project: string)
    requires s1.name != SkippedService && s2.name != SkippedService
    requires ServicePod(s1, namespace, project).Success? && ServicePod(s2, namespace, project).Success?
    ensures ParseServices([s1, s2], namespace, project)
              == Success([ServicePod(s1, namespace, project).value, ServicePod(s2, namespace, project).value])
  {
    var p1 := ServicePod(s1, namespace, project).value;
    var p2 := ServicePod(s2, namespace, project).value;
    ParseServicesSnoc([], s1, namespace, project);
    assert [] + [s1] == [s1] && [] + [p1] == [p1];
    ParseServicesSnoc([s1], s2, namespace, project);
    assert [s1] + [s2] == [s1, s2] && [p1] + [p2] == [p1, p2];
  }

  lemma TwoStores(p1: Pod, p2: Pod)
    requires p1.fileName == p2.fileName
    ensures Store(map[], [p1, p2]) == map[p2.fileName := PodFile(p2)]
  {
    StoreSnoc(map[], [], p1);
    StoreSnoc(map[], [p1], p2);
    assert [] + [p1] == [p1] && [p1] + [p2] == [p1, p2];
  }

  /** A successful parse stores its pods into the files. */
  lemma ParseServicesIntoStores(files: map<string, File>, services: seq<Service>, namespace: string, project: string)
    requires ParseServices(services, namespace, project).Success?
    ensures ParseServicesInto(files, services, namespace, project)
              == Success(Store(files, ParseServices(services, namespace, project).value))
  {
  }

  /** One more kept service adds its pod at the end. */
  lemma ParseServicesSnoc(services: seq<Service>, s: Service, namespace: string, project: string)
    requires s.name != SkippedService
    requires ParseServices(services, namespace, project).Success? && ServicePod(s, namespace, project).Success?
    ensures ParseServices(services + [s], namespace, project)
              == Success(ParseServices(services, namespace, project).value + [ServicePod(s, namespace, project).value])
  {
    var all := services + [s];
    assert all[..|all| - 1] == services && all[|all| - 1] == s;
  }

  /** Storing one more pod writes it under its file name. */
  lemma StoreSnoc(files: map<string, File>, pods: seq<Pod>, p: Pod)
    ensures Store(files, pods + [p]) == Store(files, pods)[p.fileName := PodFile(p)]
  {
    var all := pods + [p];
    assert all[..|all| - 1] == pods && all[|all| - 1] == p;
  }

  /** Services named `a_b` and then `a.b` share one YAML file, and only
      the second one's pod is left in it. */
  lemma CollidingServicesKeepLast(namespace: string, project: string)
    ensures var s1 := Service("a_b", "c", None, "1", []);
            var s2 := Service("a.b", "c", None, "1", []);
            ParseServicesInto(map[], [s1, s2], namespace, project)
              == Success(map["a-b.yml" := PodFile(ServicePod(s2, namespace, project).value)])
  {
    var s1 := Service("a_b", "c", None, "1", []);
    var s2 := Service("a.b", "c", None, "1", []);
    KubeNameMerges();
    NotSkipped("a_b");
    NotSkipped("a.b");
    assert YamlFileName(s2.name) == "a-b.yml";
    assert ServicePod(s1, namespace, project).Success? && ServicePod(s2, namespace, project).Success?;
    SecondPodWins(s1, s2, namespace, project);
  }

  lemma NotSkipped(name: string)
    requires |name| == 3
    ensures name != SkippedService
  {
  }
}
